/**
 The timing record of one segment and what a verifier does with it
 (tools/src/timing.ts). Values are mathematical integers, as BigInt is.
 */
module Timing {
  import opened ByteStrings
  import opened Primitives

  /** One segment's timing, each value in the media ticks of its own track. */
  datatype TimingValues = TimingValues(
    videoDts: seq<int>, videoCts: seq<int>, videoEnd: int, audioDts: seq<int>, audioDur: seq<int>)
  {
    /** One offset a video sample, one duration an audio frame: what every reader builds. */
    predicate Paired() {
      |videoDts| == |videoCts| && |audioDts| == |audioDur|
    }
  }

  datatype Timescales = Timescales(video: int, audio: Option<int>)

  // ---- the record's bytes ----

  const TWO_32: int := 0x1_0000_0000
  const TWO_63: int := 0x8000_0000_0000_0000
  const TWO_64: int := 0x1_0000_0000_0000_0000

  predicate IsInt64(v: int) {
    -TWO_63 <= v < TWO_63
  }

  predicate IsUint64(v: int) {
    0 <= v < TWO_64
  }

  predicate IsUint32(v: int) {
    0 <= v < TWO_32
  }

  /** Two's complement, big-endian. */
  function Int64(v: int): (b: Buffer)
    requires IsInt64(v)
    ensures |b| == 8
  {
    BigEndian(if v < 0 then v + TWO_64 else v, 8)
  }

  function Uint64(v: int): (b: Buffer)
    requires IsUint64(v)
    ensures |b| == 8
  {
    BigEndian(v, 8)
  }

  function Uint32(v: int): (b: Buffer)
    requires IsUint32(v)
    ensures |b| == 4
  {
    BigEndian(v, 4)
  }

  lemma IntegersInjective(x: int, y: int)
    ensures IsInt64(x) && IsInt64(y) && Int64(x) == Int64(y) ==> x == y
    ensures IsUint64(x) && IsUint64(y) && Uint64(x) == Uint64(y) ==> x == y
    ensures IsUint32(x) && IsUint32(y) && Uint32(x) == Uint32(y) ==> x == y
  {
    Widths();
    if IsInt64(x) && IsInt64(y) && Int64(x) == Int64(y) {
      BigEndianInjective(if x < 0 then x + TWO_64 else x, if y < 0 then y + TWO_64 else y, 8);
    }
    if IsUint64(x) && IsUint64(y) && Uint64(x) == Uint64(y) {
      BigEndianInjective(x, y, 8);
    }
    if IsUint32(x) && IsUint32(y) && Uint32(x) == Uint32(y) {
      BigEndianInjective(x, y, 4);
    }
  }

  predicate AllInt64(values: seq<int>) {
    forall i | 0 <= i < |values| :: IsInt64(values[i])
  }

  predicate AllUint32(values: seq<int>) {
    forall i | 0 <= i < |values| :: IsUint32(values[i])
  }

  /** Whether every value fits the field the record gives it. */
  predicate Encodable(t: TimingValues) {
    && IsUint32(|t.videoDts|) && AllInt64(t.videoDts) && AllInt64(t.videoCts) && IsUint64(t.videoEnd)
    && IsUint32(|t.audioDts|) && AllInt64(t.audioDts) && AllUint32(t.audioDur)
  }

  function PackVideo(dts: seq<int>, cts: seq<int>): Buffer
    requires |dts| == |cts| && AllInt64(dts) && AllInt64(cts)
  {
    if |dts| == 0 then [] else Int64(dts[0]) + Int64(cts[0]) + PackVideo(dts[1..], cts[1..])
  }

  function PackAudio(dts: seq<int>, dur: seq<int>): Buffer
    requires |dts| == |dur| && AllInt64(dts) && AllUint32(dur)
  {
    if |dts| == 0 then [] else Int64(dts[0]) + Uint32(dur[0]) + PackAudio(dts[1..], dur[1..])
  }

  /** `timing(n)`; none when a value does not fit its field. */
  function TimingRecord(t: TimingValues): Option<Buffer>
    requires t.Paired()
  {
    if !Encodable(t) then None
    else Some(Uint32(|t.videoDts|) + PackVideo(t.videoDts, t.videoCts) + Uint64(t.videoEnd)
              + Uint32(|t.audioDts|) + PackAudio(t.audioDts, t.audioDur))
  }

  lemma {:induction false} PackVideoSplit(dts: seq<int>, cts: seq<int>, dts': seq<int>, cts': seq<int>, rest: Buffer, rest': Buffer)
    requires |dts| == |cts| == |dts'| == |cts'|
    requires AllInt64(dts) && AllInt64(cts) && AllInt64(dts') && AllInt64(cts')
    requires PackVideo(dts, cts) + rest == PackVideo(dts', cts') + rest'
    ensures dts == dts' && cts == cts' && rest == rest'
  {
    if |dts| == 0 {
      assert PackVideo(dts, cts) + rest == rest && PackVideo(dts', cts') + rest' == rest';
    } else {
      var tail, tail' := PackVideo(dts[1..], cts[1..]) + rest, PackVideo(dts'[1..], cts'[1..]) + rest';
      assert PackVideo(dts, cts) + rest == Int64(dts[0]) + (Int64(cts[0]) + tail);
      assert PackVideo(dts', cts') + rest' == Int64(dts'[0]) + (Int64(cts'[0]) + tail');
      SplitEqual(Int64(dts[0]), Int64(cts[0]) + tail, Int64(dts'[0]), Int64(cts'[0]) + tail');
      SplitEqual(Int64(cts[0]), tail, Int64(cts'[0]), tail');
      IntegersInjective(dts[0], dts'[0]);
      IntegersInjective(cts[0], cts'[0]);
      PackVideoSplit(dts[1..], cts[1..], dts'[1..], cts'[1..], rest, rest');
      assert dts == [dts[0]] + dts[1..] && dts' == [dts'[0]] + dts'[1..];
      assert cts == [cts[0]] + cts[1..] && cts' == [cts'[0]] + cts'[1..];
    }
  }

  lemma {:induction false} PackAudioInjective(dts: seq<int>, dur: seq<int>, dts': seq<int>, dur': seq<int>)
    requires |dts| == |dur| == |dts'| == |dur'|
    requires AllInt64(dts) && AllUint32(dur) && AllInt64(dts') && AllUint32(dur')
    requires PackAudio(dts, dur) == PackAudio(dts', dur')
    ensures dts == dts' && dur == dur'
  {
    if |dts| > 0 {
      var tail, tail' := PackAudio(dts[1..], dur[1..]), PackAudio(dts'[1..], dur'[1..]);
      SplitEqual(Int64(dts[0]) + Uint32(dur[0]), tail, Int64(dts'[0]) + Uint32(dur'[0]), tail');
      SplitEqual(Int64(dts[0]), Uint32(dur[0]), Int64(dts'[0]), Uint32(dur'[0]));
      IntegersInjective(dts[0], dts'[0]);
      IntegersInjective(dur[0], dur'[0]);
      PackAudioInjective(dts[1..], dur[1..], dts'[1..], dur'[1..]);
      assert dts == [dts[0]] + dts[1..] && dts' == [dts'[0]] + dts'[1..];
      assert dur == [dur[0]] + dur[1..] && dur' == [dur'[0]] + dur'[1..];
    }
  }

  /** Two values with one record are one value: nothing shifts between the video and the audio half. */
  lemma TimingRecordInjective(a: TimingValues, b: TimingValues)
    requires a.Paired() && b.Paired()
    requires TimingRecord(a).Some? && TimingRecord(a) == TimingRecord(b)
    ensures a == b
  {
    var audio, audio' := PackAudio(a.audioDts, a.audioDur), PackAudio(b.audioDts, b.audioDur);
    var n, n' := Uint32(|a.audioDts|), Uint32(|b.audioDts|);
    var end, end' := Uint64(a.videoEnd), Uint64(b.videoEnd);
    var video, video' := PackVideo(a.videoDts, a.videoCts), PackVideo(b.videoDts, b.videoCts);
    var v, v' := Uint32(|a.videoDts|), Uint32(|b.videoDts|);
    RecordShape(v, video, end, n, audio);
    RecordShape(v', video', end', n', audio');
    SplitEqual(v, video + (end + (n + audio)), v', video' + (end' + (n' + audio')));
    IntegersInjective(|a.videoDts|, |b.videoDts|);
    PackVideoSplit(a.videoDts, a.videoCts, b.videoDts, b.videoCts, end + (n + audio), end' + (n' + audio'));
    SplitEqual(end, n + audio, end', n' + audio');
    IntegersInjective(a.videoEnd, b.videoEnd);
    SplitEqual(n, audio, n', audio');
    IntegersInjective(|a.audioDts|, |b.audioDts|);
    PackAudioInjective(a.audioDts, a.audioDur, b.audioDts, b.audioDur);
  }

  lemma RecordShape(v: Buffer, video: Buffer, end: Buffer, n: Buffer, audio: Buffer)
    ensures v + video + end + n + audio == v + (video + (end + (n + audio)))
  {
  }

  // ---- exact conversion between timescales ----

  /** Ticks of timescale `from` in ticks of `to`, when that is a whole number of them. */
  function Scale(from: Option<int>, to: Option<int>, value: int): Option<int> {
    if from.None? || to.None? || from.value <= 0 || to.value <= 0 then None
    else if value * to.value % from.value == 0 then Some(value * to.value / from.value)
    else None
  }

  /** `result` ticks of `to` are the same instant as `value` ticks of `from`. */
  predicate SameInstant(value: int, from: int, result: int, to: int) {
    value * to == result * from
  }

  /** Conversion answers exactly when an integer names the same instant, and answers that integer. */
  lemma ScaleExact(from: int, to: int, value: int, result: int)
    requires from > 0 && to > 0
    ensures Scale(Some(from), Some(to), value) == Some(result) <==> SameInstant(value, from, result, to)
  {
    var product := value * to;
    DivMod(product, from, result);
  }

  lemma DivMod(x: int, d: int, q: int)
    requires d > 0
    ensures x % d == 0 && x / d == q <==> x == q * d
  {
    var k := x / d - q;
    MulAtLeast(d, k);
    assert d * k == d * (x / d) - q * d;
  }

  /** A non-zero multiple of `d` is at least `d` away from zero. */
  lemma MulAtLeast(d: int, k: int)
    requires d > 0
    ensures k >= 1 ==> d * k >= d
    ensures k <= -1 ==> d * k <= -d
  {
  }

  lemma MulLess(a: int, b: int, k: int)
    requires k > 0
    ensures a * k < b * k <==> a < b
    ensures a * k == b * k <==> a == b
    ensures a * k <= b * k <==> a <= b
  {
    MulAtLeast(k, b - a);
    assert k * (b - a) == b * k - a * k;
  }

  predicate AllScale(from: Option<int>, to: Option<int>, values: seq<int>) {
    forall i | 0 <= i < |values| :: Scale(from, to, values[i]).Some?
  }

  function ScaleAll(from: Option<int>, to: Option<int>, values: seq<int>): Option<seq<int>> {
    if AllScale(from, to, values)
    then Some(seq(|values|, i requires 0 <= i < |values| => Scale(from, to, values[i]).value))
    else None
  }

  /** The loop that converts one list of values. */
  method ConvertAll(from: Option<int>, to: Option<int>, values: seq<int>) returns (converted: Option<seq<int>>)
    ensures converted == ScaleAll(from, to, values)
  {
    var out := [];
    for i := 0 to |values|
      invariant |out| == i
      invariant forall j | 0 <= j < i :: Scale(from, to, values[j]) == Some(out[j])
    {
      var value := Scale(from, to, values[i]);
      if value.None? {
        return None;
      }
      out := out + [value.value];
    }
    assert AllScale(from, to, values);
    assert out == ScaleAll(from, to, values).value;
    return Some(out);
  }

  function Convert(t: TimingValues, received: Timescales, signed: Timescales): Option<TimingValues> {
    var videoDts := ScaleAll(Some(received.video), Some(signed.video), t.videoDts);
    var videoCts := ScaleAll(Some(received.video), Some(signed.video), t.videoCts);
    var videoEnd := Scale(Some(received.video), Some(signed.video), t.videoEnd);
    var audioDts := ScaleAll(received.audio, signed.audio, t.audioDts);
    var audioDur := ScaleAll(received.audio, signed.audio, t.audioDur);
    if videoDts.None? || videoCts.None? || videoEnd.None? || audioDts.None? || audioDur.None? then None
    else Some(TimingValues(videoDts.value, videoCts.value, videoEnd.value, audioDts.value, audioDur.value))
  }

  method ConvertTiming(t: TimingValues, received: Timescales, signed: Timescales) returns (converted: Option<TimingValues>)
    ensures converted == Convert(t, received, signed)
  {
    var videoDts := ConvertAll(Some(received.video), Some(signed.video), t.videoDts);
    var videoCts := ConvertAll(Some(received.video), Some(signed.video), t.videoCts);
    var videoEnd := Scale(Some(received.video), Some(signed.video), t.videoEnd);
    var audioDts := ConvertAll(received.audio, signed.audio, t.audioDts);
    var audioDur := ConvertAll(received.audio, signed.audio, t.audioDur);
    if videoDts.None? || videoCts.None? || videoEnd.None? || audioDts.None? || audioDur.None? {
      return None;
    }
    return Some(TimingValues(videoDts.value, videoCts.value, videoEnd.value, audioDts.value, audioDur.value));
  }

  predicate SameInstantsIn(values: seq<int>, from: int, results: seq<int>, to: int) {
    |values| == |results| && forall i | 0 <= i < |values| :: SameInstant(values[i], from, results[i], to)
  }

  /** Both records name the same rational instants, each in its own positive timescales. */
  predicate SameInstants(t: TimingValues, from: Timescales, r: TimingValues, to: Timescales) {
    && from.video > 0 && to.video > 0
    && SameInstantsIn(t.videoDts, from.video, r.videoDts, to.video)
    && SameInstantsIn(t.videoCts, from.video, r.videoCts, to.video)
    && SameInstant(t.videoEnd, from.video, r.videoEnd, to.video)
    && if t.audioDts == [] && t.audioDur == [] then r.audioDts == [] && r.audioDur == []
       else
         && from.audio.Some? && to.audio.Some? && from.audio.value > 0 && to.audio.value > 0
         && SameInstantsIn(t.audioDts, from.audio.value, r.audioDts, to.audio.value)
         && SameInstantsIn(t.audioDur, from.audio.value, r.audioDur, to.audio.value)
  }

  lemma ScaleAllExact(from: int, to: int, values: seq<int>, results: seq<int>)
    requires from > 0 && to > 0
    ensures ScaleAll(Some(from), Some(to), values) == Some(results) <==> SameInstantsIn(values, from, results, to)
  {
    if |values| == |results| {
      forall i | 0 <= i < |values|
        ensures Scale(Some(from), Some(to), values[i]) == Some(results[i]) <==> SameInstant(values[i], from, results[i], to)
      {
        ScaleExact(from, to, values[i], results[i]);
      }
      if SameInstantsIn(values, from, results, to) {
        assert AllScale(Some(from), Some(to), values);
        assert ScaleAll(Some(from), Some(to), values).value == results;
      }
    }
  }

  /** No list with a value in it converts without two positive timescales. */
  lemma ScaleAllNeedsScales(from: Option<int>, to: Option<int>, values: seq<int>)
    requires from.None? || to.None? || from.value <= 0 || to.value <= 0
    ensures ScaleAll(from, to, values) == if values == [] then Some([]) else None
  {
    if values == [] {
      assert ScaleAll(from, to, values).value == [];
    } else {
      assert Scale(from, to, values[0]).None?;
    }
  }

  /** `convertTiming` answers exactly when integers name the same instants, and answers those integers. */
  lemma ConvertExact(t: TimingValues, received: Timescales, signed: Timescales, r: TimingValues)
    ensures Convert(t, received, signed) == Some(r) <==> SameInstants(t, received, r, signed)
  {
    hide Scale, ScaleAll;
    if received.video > 0 && signed.video > 0 {
      ScaleAllExact(received.video, signed.video, t.videoDts, r.videoDts);
      ScaleAllExact(received.video, signed.video, t.videoCts, r.videoCts);
      ScaleExact(received.video, signed.video, t.videoEnd, r.videoEnd);
      ConvertAudioExact(t, received.audio, signed.audio, r);
    } else {
      assert Scale(Some(received.video), Some(signed.video), t.videoEnd).None? by {
        ScaleNeedsScales(received.video, signed.video, t.videoEnd);
      }
    }
  }

  lemma ScaleNeedsScales(from: int, to: int, value: int)
    requires from <= 0 || to <= 0
    ensures Scale(Some(from), Some(to), value).None?
  {
  }

  lemma ConvertAudioExact(t: TimingValues, received: Option<int>, signed: Option<int>, r: TimingValues)
    ensures (ScaleAll(received, signed, t.audioDts) == Some(r.audioDts) && ScaleAll(received, signed, t.audioDur) == Some(r.audioDur)) <==>
            if t.audioDts == [] && t.audioDur == [] then r.audioDts == [] && r.audioDur == []
            else
              && received.Some? && signed.Some? && received.value > 0 && signed.value > 0
              && SameInstantsIn(t.audioDts, received.value, r.audioDts, signed.value)
              && SameInstantsIn(t.audioDur, received.value, r.audioDur, signed.value)
  {
    if received.Some? && signed.Some? && received.value > 0 && signed.value > 0 {
      ScaleAllExact(received.value, signed.value, t.audioDts, r.audioDts);
      ScaleAllExact(received.value, signed.value, t.audioDur, r.audioDur);
    } else {
      ScaleAllNeedsScales(received, signed, t.audioDts);
      ScaleAllNeedsScales(received, signed, t.audioDur);
    }
  }

  // ---- rescaling a track, and converting twice ----

  function Times(values: seq<int>, k: int): seq<int> {
    seq(|values|, i requires 0 <= i < |values| => values[i] * k)
  }

  /** Every value of a record multiplied, as a re-mux to a finer timescale does. */
  function Rescaled(t: TimingValues, k: int): TimingValues {
    TimingValues(Times(t.videoDts, k), Times(t.videoCts, k), t.videoEnd * k, Times(t.audioDts, k), Times(t.audioDur, k))
  }

  function RescaledScales(s: Timescales, k: int): Timescales {
    Timescales(s.video * k, if s.audio.Some? then Some(s.audio.value * k) else None)
  }

  predicate Positive(s: Timescales) {
    s.video > 0 && (s.audio.Some? ==> s.audio.value > 0)
  }

  /** A track moved to a timescale `k` times finer converts back to the record it had. */
  lemma RescaledConvertsBack(t: TimingValues, s: Timescales, k: int)
    requires k > 0 && Positive(s)
    requires s.audio.None? ==> t.audioDts == [] && t.audioDur == []
    ensures Convert(Rescaled(t, k), RescaledScales(s, k), s) == Some(t)
  {
    var from, scaled := RescaledScales(s, k), Rescaled(t, k);
    MulAtLeast(k, s.video);
    TimesSame(t.videoDts, s.video, k);
    TimesSame(t.videoCts, s.video, k);
    TimesSame([t.videoEnd], s.video, k);
    assert SameInstant(Times([t.videoEnd], k)[0], s.video * k, t.videoEnd, s.video);
    if s.audio.Some? {
      MulAtLeast(k, s.audio.value);
      TimesSame(t.audioDts, s.audio.value, k);
      TimesSame(t.audioDur, s.audio.value, k);
    }
    assert SameInstants(scaled, from, t, s);
    ConvertExact(scaled, from, s, t);
  }

  lemma TimesSame(values: seq<int>, scale: int, k: int)
    ensures SameInstantsIn(Times(values, k), scale * k, values, scale)
  {
    forall i | 0 <= i < |values|
      ensures SameInstant(Times(values, k)[i], scale * k, values[i], scale)
    {
      assert values[i] * k * scale == values[i] * (scale * k);
    }
  }

  /** Converting twice is converting once. */
  lemma ConvertComposes(t: TimingValues, a: Timescales, u: TimingValues, b: Timescales, w: TimingValues, c: Timescales)
    requires Convert(t, a, b) == Some(u) && Convert(u, b, c) == Some(w)
    ensures Convert(t, a, c) == Some(w)
  {
    ConvertExact(t, a, b, u);
    ConvertExact(u, b, c, w);
    InstantsCompose(t.videoDts, a.video, u.videoDts, b.video, w.videoDts, c.video);
    InstantsCompose(t.videoCts, a.video, u.videoCts, b.video, w.videoCts, c.video);
    InstantCompose(t.videoEnd, a.video, u.videoEnd, b.video, w.videoEnd, c.video);
    if !(t.audioDts == [] && t.audioDur == []) {
      InstantsCompose(t.audioDts, a.audio.value, u.audioDts, b.audio.value, w.audioDts, c.audio.value);
      InstantsCompose(t.audioDur, a.audio.value, u.audioDur, b.audio.value, w.audioDur, c.audio.value);
    }
    assert SameInstants(t, a, w, c);
    ConvertExact(t, a, c, w);
  }

  lemma InstantsCompose(x: seq<int>, a: int, y: seq<int>, b: int, z: seq<int>, c: int)
    requires b > 0 && SameInstantsIn(x, a, y, b) && SameInstantsIn(y, b, z, c)
    ensures SameInstantsIn(x, a, z, c)
  {
    forall i | 0 <= i < |x|
      ensures SameInstant(x[i], a, z[i], c)
    {
      assert SameInstant(x[i], a, y[i], b) && SameInstant(y[i], b, z[i], c);
      InstantCompose(x[i], a, y[i], b, z[i], c);
    }
  }

  lemma InstantCompose(x: int, a: int, y: int, b: int, z: int, c: int)
    requires b > 0 && SameInstant(x, a, y, b) && SameInstant(y, b, z, c)
    ensures SameInstant(x, a, z, c)
  {
    calc {
      x * c * b;
      x * b * c;
      y * a * c;
      y * c * a;
      z * b * a;
      z * a * b;
    }
    MulLess(x * c, z * a, b);
  }

  // ---- the hash a verifier compares ----

  /** None when the values cannot be expressed in the signed timescales, or not encoded at all. */
  function ReceivedTimingHash(h: Hash, t: TimingValues, received: Timescales, signed: Timescales): Option<Digest>
    requires t.Paired()
  {
    var converted := Convert(t, received, signed);
    if converted.None? then None
    else
      var record := TimingRecord(converted.value);
      if record.None? then None else Some(h(record.value))
  }

  /** A received hash equal to a signed one means the signed instants, exactly. */
  lemma EqualHashesEqualInstants(h: Hash, t: TimingValues, received: Timescales, sealed: TimingValues, signed: Timescales, messages: iset<Buffer>)
    requires t.Paired() && sealed.Paired() && TimingRecord(sealed).Some? && InjectiveOn(h, messages)
    requires TimingRecord(sealed).value in messages
    requires var c := Convert(t, received, signed);
             c.Some? && TimingRecord(c.value).Some? ==> TimingRecord(c.value).value in messages
    requires ReceivedTimingHash(h, t, received, signed) == Some(h(TimingRecord(sealed).value))
    ensures SameInstants(t, received, sealed, signed)
  {
    var c := Convert(t, received, signed).value;
    TimingRecordInjective(c, sealed);
    ConvertExact(t, received, signed, c);
  }

  /** And a record read back in the signed timescales hashes to what was signed. */
  lemma EqualInstantsEqualHashes(h: Hash, t: TimingValues, received: Timescales, sealed: TimingValues, signed: Timescales)
    requires t.Paired() && sealed.Paired() && TimingRecord(sealed).Some?
    requires SameInstants(t, received, sealed, signed)
    ensures ReceivedTimingHash(h, t, received, signed) == Some(h(TimingRecord(sealed).value))
  {
    ConvertExact(t, received, signed, sealed);
  }

  // ---- where a segment sits, and the single media edit ----

  datatype Extent = Extent(start: int, end: int)

  datatype MediaEdit = MediaEdit(mediaTime: int, duration: int, movieTimescale: int, mediaTimescale: int)

  predicate EditTrims(edit: MediaEdit, extent: Extent) {
    edit.mediaTime > extent.start ||
    (edit.duration + 1) * edit.mediaTimescale <= (extent.end - edit.mediaTime) * edit.movieTimescale
  }

  function NextDts(t: TimingValues, i: nat): int
    requires i < |t.videoDts|
  {
    if i + 1 < |t.videoDts| then t.videoDts[i + 1] else t.videoEnd
  }

  /** Decode times never go back, up to the end of the segment. */
  predicate InOrder(t: TimingValues) {
    forall i | 0 <= i < |t.videoDts| :: t.videoDts[i] <= NextDts(t, i)
  }

  /** Presentation interval of video sample `i`, from the segment's first DTS. */
  function Shown(t: TimingValues, i: nat): Extent
    requires i < |t.videoDts| == |t.videoCts|
  {
    Extent(t.videoDts[i] + t.videoCts[i], NextDts(t, i) + t.videoCts[i])
  }

  /** The earliest instant at which one of the first `n` samples is shown. */
  function Earliest(t: TimingValues, n: nat): int
    requires 0 < n <= |t.videoDts| == |t.videoCts|
  {
    var last := Shown(t, n - 1).start;
    if n == 1 || last < Earliest(t, n - 1) then last else Earliest(t, n - 1)
  }

  /** The latest instant at which one of the first `n` samples ends. */
  function Latest(t: TimingValues, n: nat): int
    requires 0 < n <= |t.videoDts| == |t.videoCts|
  {
    var last := Shown(t, n - 1).end;
    if n == 1 || last > Latest(t, n - 1) then last else Latest(t, n - 1)
  }

  function VideoExtentOf(t: TimingValues, dts0: int): Extent
    requires |t.videoDts| == |t.videoCts|
  {
    var n := |t.videoDts|;
    if n == 0 then Extent(dts0, dts0 + t.videoEnd) else Extent(dts0 + Earliest(t, n), dts0 + Latest(t, n))
  }

  method VideoExtent(t: TimingValues, dts0: int) returns (extent: Extent)
    requires |t.videoDts| == |t.videoCts|
    ensures extent == VideoExtentOf(t, dts0)
  {
    var start: Option<int> := None;
    var end: Option<int> := None;
    for i := 0 to |t.videoDts|
      invariant start == if i == 0 then None else Some(Earliest(t, i))
      invariant end == if i == 0 then None else Some(Latest(t, i))
    {
      var next := if i + 1 < |t.videoDts| then t.videoDts[i + 1] else t.videoEnd;
      var shown := t.videoDts[i] + t.videoCts[i];
      var until := shown + (next - t.videoDts[i]);
      if start.None? || shown < start.value {
        start := Some(shown);
      }
      if end.None? || until > end.value {
        end := Some(until);
      }
    }
    extent := Extent(dts0 + (if start.Some? then start.value else 0), dts0 + (if end.Some? then end.value else t.videoEnd));
  }

  /** The extent holds every sample's interval, and both its ends are met by one. */
  lemma {:induction false} ExtentIsTight(t: TimingValues, n: nat)
    requires 0 < n <= |t.videoDts| == |t.videoCts|
    ensures forall i | 0 <= i < n :: Earliest(t, n) <= Shown(t, i).start && Shown(t, i).end <= Latest(t, n)
    ensures exists i | 0 <= i < n :: Earliest(t, n) == Shown(t, i).start
    ensures exists i | 0 <= i < n :: Latest(t, n) == Shown(t, i).end
  {
    if n > 1 {
      ExtentIsTight(t, n - 1);
    } else {
      assert Earliest(t, n) == Shown(t, 0).start && Latest(t, n) == Shown(t, 0).end;
    }
  }

  /** Without composition offsets, and with decode times in order, a segment is shown from its first sample to its end. */
  lemma {:induction false} PlainExtent(t: TimingValues, n: nat)
    requires 0 < n <= |t.videoDts| == |t.videoCts|
    requires InOrder(t) && forall i | 0 <= i < |t.videoCts| :: t.videoCts[i] == 0
    ensures Earliest(t, n) == t.videoDts[0] <= t.videoDts[n - 1]
    ensures Latest(t, n) == Shown(t, n - 1).end
  {
    if n > 1 {
      PlainExtent(t, n - 1);
    }
  }

  function AudioExtent(t: TimingValues, adts0: int): Option<Extent>
    requires |t.audioDts| == |t.audioDur|
  {
    var last := |t.audioDts| - 1;
    if last < 0 then None else Some(Extent(adts0, adts0 + t.audioDts[last] + t.audioDur[last]))
  }

  /** `media` media ticks in whole movie ticks, as a writer of an edit rounds them. */
  function Floored(media: int, movieTimescale: int, mediaTimescale: int): int
    requires mediaTimescale > 0
  {
    media * movieTimescale / mediaTimescale
  }

  lemma FloorAtLeast(x: int, d: int, q: int)
    requires d > 0
    ensures q <= x / d <==> q * d <= x
  {
    assert x == d * (x / d) + x % d;
    MulAtLeast(d, q - x / d);
    MulAtLeast(d, x / d - q + 1);
    assert d * (q - x / d) == q * d - d * (x / d);
    assert d * (x / d - q + 1) == d * (x / d) - q * d + d;
  }

  /**
   An edit from the start of the media trims a segment exactly when it is shorter,
   in whole movie ticks, than the media up to that segment's end.
   */
  lemma EditTrimsExactly(edit: MediaEdit, extent: Extent)
    requires edit.mediaTimescale > 0 && edit.movieTimescale > 0
    ensures EditTrims(edit, extent) <==>
            extent.start < edit.mediaTime || edit.duration < Floored(extent.end - edit.mediaTime, edit.movieTimescale, edit.mediaTimescale)
  {
    FloorAtLeast((extent.end - edit.mediaTime) * edit.movieTimescale, edit.mediaTimescale, edit.duration + 1);
  }

  /** The edit a re-mux writes over `media` ticks of kept samples trims none of them. */
  lemma WrittenEditTrimsNothing(media: int, movieTimescale: int, mediaTimescale: int, extent: Extent)
    requires movieTimescale > 0 && mediaTimescale > 0
    requires 0 <= extent.start && extent.end <= media
    ensures !EditTrims(MediaEdit(0, Floored(media, movieTimescale, mediaTimescale), movieTimescale, mediaTimescale), extent)
  {
    var edit := MediaEdit(0, Floored(media, movieTimescale, mediaTimescale), movieTimescale, mediaTimescale);
    EditTrimsExactly(edit, extent);
    MulLess(extent.end, media, movieTimescale);
    var most := extent.end * movieTimescale;
    FloorAtLeast(most, mediaTimescale, most / mediaTimescale);
    FloorAtLeast(media * movieTimescale, mediaTimescale, most / mediaTimescale);
  }

  /** An edit a whole movie tick shorter than that trims the segment that ends the media. */
  lemma ShorterEditTrims(media: int, duration: int, movieTimescale: int, mediaTimescale: int, extent: Extent)
    requires movieTimescale > 0 && mediaTimescale > 0
    requires 0 <= extent.start && extent.end == media
    requires duration <= Floored(media, movieTimescale, mediaTimescale) - 1
    ensures EditTrims(MediaEdit(0, duration, movieTimescale, mediaTimescale), extent)
  {
    EditTrimsExactly(MediaEdit(0, duration, movieTimescale, mediaTimescale), extent);
  }

  /** Moving a track to a timescale `k` times finer changes no answer. */
  lemma EditTrimsRescaled(edit: MediaEdit, extent: Extent, k: int)
    requires k > 0
    ensures EditTrims(edit.(mediaTime := edit.mediaTime * k, mediaTimescale := edit.mediaTimescale * k), Extent(extent.start * k, extent.end * k))
        <==> EditTrims(edit, extent)
  {
    MulLess(extent.start, edit.mediaTime, k);
    var left, right := (edit.duration + 1) * edit.mediaTimescale, (extent.end - edit.mediaTime) * edit.movieTimescale;
    MulLess(left, right, k);
    assert (edit.duration + 1) * (edit.mediaTimescale * k) == left * k;
    assert (extent.end * k - edit.mediaTime * k) * edit.movieTimescale == right * k by {
      assert extent.end * k - edit.mediaTime * k == (extent.end - edit.mediaTime) * k;
      assert (extent.end - edit.mediaTime) * k * edit.movieTimescale == right * k;
    }
  }
}

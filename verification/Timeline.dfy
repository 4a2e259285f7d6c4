/**
 The presentation timeline both tracks share: comparisons of exact fractions
 are comparisons of instants, and each audio frame enters exactly one GOP.
 */
module Timeline {
  import opened ByteStrings
  import opened SampleTables
  import opened Nal
  import opened Gops

  predicate Aligned(track: Track) {
    track.timescale > 0 && track.delayDen > 0
  }

  /** Seconds. */
  function Seconds(at: Instant): real
    requires at.den > 0
  {
    at.num as real / at.den as real
  }

  lemma ProductPositive(a: int, b: int)
    requires a > 0 && b > 0
    ensures a * b > 0
  {
  }

  lemma InstantPositive(track: Track, dts: int)
    requires Aligned(track)
    ensures InstantOf(track, dts).den > 0
  {
    ProductPositive(track.delayDen, track.timescale);
  }

  lemma CrossMultiply(x: real, d: real, y: real, e: real)
    requires d > 0.0 && e > 0.0
    ensures x / d < y / e <==> x * e < y * d
  {
    var p, q := x / d, y / e;
    assert x == p * d && y == q * e;
    assert x * e == p * (d * e) && y * d == q * (d * e);
    PositiveScale(p, q, d * e);
  }

  lemma PositiveScale(p: real, q: real, k: real)
    requires k > 0.0
    ensures p < q <==> p * k < q * k
  {
    if p < q {
      assert (q - p) * k > 0.0;
    } else {
      assert (p - q) * k >= 0.0;
    }
  }

  /** The integer comparison of the code is the comparison of the instants. */
  lemma BeforeIsEarlier(a: Instant, b: Instant)
    requires a.den > 0 && b.den > 0
    ensures Before(a, b) <==> Seconds(a) < Seconds(b)
  {
    CrossMultiply(a.num as real, a.den as real, b.num as real, b.den as real);
    CastProduct(a.num, b.den);
    CastProduct(b.num, a.den);
  }

  lemma CastProduct(a: int, b: int)
    ensures (a * b) as real == a as real * b as real
  {
  }

  /** Where a sample sits: its delay, plus its media time from the media start. */
  lemma InstantSeconds(track: Track, dts: int)
    requires Aligned(track)
    ensures InstantOf(track, dts).den > 0
    ensures Seconds(InstantOf(track, dts)) == track.delayNum as real / track.delayDen as real + (dts - track.mediaStart) as real / track.timescale as real
  {
    InstantPositive(track, dts);
    var n, d, m, t := track.delayNum as real, track.delayDen as real, (dts - track.mediaStart) as real, track.timescale as real;
    CastProduct(track.delayNum, track.timescale);
    CastProduct(dts - track.mediaStart, track.delayDen);
    CastProduct(track.delayDen, track.timescale);
    AddFractions(n, d, m, t);
  }

  lemma AddFractions(n: real, d: real, m: real, t: real)
    requires d > 0.0 && t > 0.0
    ensures d * t > 0.0 && (n * t + m * d) / (d * t) == n / d + m / t
  {
    var p, q := n / d, m / t;
    assert n == p * d && m == q * t;
    assert n * t == p * (d * t);
    assert m * d == q * (d * t);
    assert n * t + m * d == (p + q) * (d * t);
  }

  // ---- every audio frame enters one GOP ----

  /** Decode times of a track's access units never go back. */
  ghost predicate UnitsInOrder(units: seq<AccessUnit>) {
    forall i, j | 0 <= i <= j < |units| :: units[i].dts <= units[j].dts
  }

  ghost predicate FramesInOrder(frames: seq<Frame>) {
    forall i, j | 0 <= i <= j < |frames| :: frames[i].dts <= frames[j].dts
  }

  lemma {:induction false} SamplesInOrder(samples: seq<Sample>, i: nat, j: nat)
    requires DtsArePrefixSums(samples) && i <= j < |samples|
    ensures samples[i].dts <= samples[j].dts
  {
    if i < j {
      SamplesInOrder(samples, i, j - 1);
      assert samples[j - 1 + 1].dts == samples[j - 1].dts + samples[j - 1].duration;
    }
  }

  lemma LaterIsNotBefore(track: Track, x: int, y: int)
    requires Aligned(track) && x <= y
    ensures !Before(InstantOf(track, y), InstantOf(track, x))
  {
    InstantPositive(track, x);
    var d := track.delayDen * track.timescale;
    assert (y - x) * track.delayDen >= 0;
    var nx, ny := InstantOf(track, x).num, InstantOf(track, y).num;
    assert ny - nx == (y - x) * track.delayDen;
    assert (ny - nx) * d >= 0;
    assert ny * d - nx * d == (ny - nx) * d;
  }

  lemma BeforeTransitive(a: Instant, b: Instant, c: Instant)
    requires a.den > 0 && b.den > 0 && c.den > 0
    ensures Before(a, b) && !Before(c, b) ==> Before(a, c)
    ensures !Before(a, b) && !Before(b, c) ==> !Before(a, c)
  {
    BeforeIsEarlier(a, b);
    BeforeIsEarlier(b, c);
    BeforeIsEarlier(c, b);
    BeforeIsEarlier(a, c);
  }

  /** Cutting the timeline at `b` cuts the frames from `a` on in two, in order. */
  lemma {:induction false} ChosenSplit(audio: Track, frames: seq<Frame>, a: Instant, b: Instant)
    requires Aligned(audio) && FramesInOrder(frames) && a.den > 0 && b.den > 0 && !Before(b, a)
    ensures Chosen(audio, frames, a, None) == Chosen(audio, frames, a, Some(b)) + Chosen(audio, frames, b, None)
  {
    if |frames| > 0 {
      var most, last := frames[..|frames| - 1], frames[|frames| - 1];
      var at := InstantOf(audio, last.dts);
      InstantPositive(audio, last.dts);
      ChosenSplit(audio, most, a, b);
      BeforeTransitive(at, b, a);
      if Before(at, b) {
        NoneLater(audio, most, b, last.dts);
      } else {
        assert Chosen(audio, frames, a, None) == Chosen(audio, most, a, None) + [last];
      }
    }
  }

  /** Frames up to one before `b` are all before `b`. */
  lemma {:induction false} NoneLater(audio: Track, frames: seq<Frame>, b: Instant, dts: int)
    requires Aligned(audio) && b.den > 0 && Before(InstantOf(audio, dts), b)
    requires forall j | 0 <= j < |frames| :: frames[j].dts <= dts
    ensures Chosen(audio, frames, b, None) == []
  {
    if |frames| > 0 {
      var last := frames[|frames| - 1];
      NoneLater(audio, frames[..|frames| - 1], b, dts);
      InstantPositive(audio, dts);
      InstantPositive(audio, last.dts);
      LaterIsNotBefore(audio, last.dts, dts);
      BeforeTransitive(InstantOf(audio, last.dts), InstantOf(audio, dts), b);
      BeforeIsEarlier(InstantOf(audio, last.dts), InstantOf(audio, dts));
      BeforeIsEarlier(InstantOf(audio, dts), InstantOf(audio, last.dts));
      BeforeIsEarlier(InstantOf(audio, dts), b);
      BeforeIsEarlier(InstantOf(audio, last.dts), b);
    }
  }

  /** The frames of the first `g` GOPs, one GOP after another. */
  function FramesUpTo(video: Track, audio: Track, units: seq<AccessUnit>, frames: seq<Frame>, g: nat): seq<Frame>
    requires g <= |Starts(units)|
  {
    if g == 0 then [] else FramesUpTo(video, audio, units, frames, g - 1) + FramesIn(video, Some(audio), units, frames, g - 1)
  }

  /**
   The GOPs share the audio out: one GOP's frames after another's are exactly the
   frames from the first GOP's instant on, each once and in order, and the frames
   before that instant are in none.
   */
  lemma AudioSharedOut(video: Track, audio: Track, units: seq<AccessUnit>, frames: seq<Frame>)
    requires Aligned(video) && Aligned(audio) && UnitsInOrder(units) && FramesInOrder(frames) && |units| > 0
    ensures |Starts(units)| > 0
    ensures FramesUpTo(video, audio, units, frames, |Starts(units)|)
         == Chosen(audio, frames, InstantOf(video, units[0].dts), None)
  {
    StartsPartition(units, |units|);
    hide Chosen, InstantOf, Before, Starts, IntervalStart, Aligned, UnitsInOrder, FramesInOrder;
    SharedOutUpTo(video, audio, units, frames, |Starts(units)| - 1);
    OpenEnd(video, units);
  }

  lemma OpenEnd(video: Track, units: seq<AccessUnit>)
    requires |Starts(units)| > 0
    ensures IntervalEnd(video, units, Starts(units), |Starts(units)| - 1) == None
  {
    hide Starts, InstantOf;
  }

  lemma {:induction false} SharedOutUpTo(video: Track, audio: Track, units: seq<AccessUnit>, frames: seq<Frame>, g: nat)
    requires Aligned(video) && Aligned(audio) && UnitsInOrder(units) && FramesInOrder(frames)
    requires g < |Starts(units)|
    ensures |units| > 0
    ensures FramesUpTo(video, audio, units, frames, g) + Chosen(audio, frames, IntervalStart(video, units, Starts(units), g), None)
         == Chosen(audio, frames, InstantOf(video, units[0].dts), None)
  {
    hide Chosen, InstantOf, Before;
    StartsPartition(units, |units|);
    if g > 0 {
      var starts := Starts(units);
      SharedOutUpTo(video, audio, units, frames, g - 1);
      var a, b := IntervalStart(video, units, starts, g - 1), IntervalStart(video, units, starts, g);
      assert starts[g - 1] < starts[g];
      InstantPositive(video, units[starts[g - 1]].dts);
      InstantPositive(video, units[starts[g]].dts);
      LaterIsNotBefore(video, units[starts[g - 1]].dts, units[starts[g]].dts);
      ChosenSplit(audio, frames, a, b);
      assert IntervalEnd(video, units, starts, g - 1) == Some(b);
    }
  }

  /** A frame is taken by at most one GOP. */
  lemma TakenOnce(video: Track, audio: Track, units: seq<AccessUnit>, g: nat, g': nat, dts: int)
    requires Aligned(video) && Aligned(audio) && UnitsInOrder(units)
    requires g < g' < |Starts(units)|
    ensures !(&& Within(InstantOf(audio, dts), IntervalStart(video, units, Starts(units), g), IntervalEnd(video, units, Starts(units), g))
              && Within(InstantOf(audio, dts), IntervalStart(video, units, Starts(units), g'), IntervalEnd(video, units, Starts(units), g')))
  {
    StartsPartition(units, |units|);
    var starts := Starts(units);
    var at, end, later := InstantOf(audio, dts), InstantOf(video, units[starts[g + 1]].dts), InstantOf(video, units[starts[g']].dts);
    InstantPositive(audio, dts);
    InstantPositive(video, units[starts[g + 1]].dts);
    InstantPositive(video, units[starts[g']].dts);
    LaterIsNotBefore(video, units[starts[g + 1]].dts, units[starts[g']].dts);
    BeforeTransitive(at, end, later);
  }

  // ---- rescaling a track moves nothing ----

  /** The track as a re-mux to a timescale `k` times finer writes it. */
  function RescaledTrack(track: Track, k: int): Track {
    track.(timescale := track.timescale * k, mediaStart := track.mediaStart * k)
  }

  lemma RescaledInstant(track: Track, dts: int, k: int)
    requires Aligned(track) && k > 0
    ensures Aligned(RescaledTrack(track, k))
    ensures InstantOf(RescaledTrack(track, k), dts * k).den > 0 && InstantOf(track, dts).den > 0
    ensures Seconds(InstantOf(RescaledTrack(track, k), dts * k)) == Seconds(InstantOf(track, dts))
  {
    ProductPositive(track.timescale, k);
    InstantSeconds(track, dts);
    InstantSeconds(RescaledTrack(track, k), dts * k);
    var m, t, f := (dts - track.mediaStart) as real, track.timescale as real, k as real;
    CastProduct(dts - track.mediaStart, k);
    CastProduct(track.timescale, k);
    assert dts * k - track.mediaStart * k == (dts - track.mediaStart) * k;
    Cancel(m, t, f);
  }

  lemma Cancel(m: real, t: real, f: real)
    requires t > 0.0 && f > 0.0
    ensures t * f > 0.0 && (m * f) / (t * f) == m / t
  {
    var p := m / t;
    assert m * f == p * (t * f);
  }

  /**
   Multiplying one track's timescale by `k` and another's by `l`, with all their
   times, leaves every frame in the interval it was in.
   */
  lemma RescaledAssignment(video: Track, k: int, audio: Track, l: int, dts: int, from: int, to: Option<int>)
    requires Aligned(video) && Aligned(audio) && k > 0 && l > 0
    ensures Within(InstantOf(RescaledTrack(audio, l), dts * l), InstantOf(RescaledTrack(video, k), from * k),
                   if to.Some? then Some(InstantOf(RescaledTrack(video, k), to.value * k)) else None)
        <==> Within(InstantOf(audio, dts), InstantOf(video, from), if to.Some? then Some(InstantOf(video, to.value)) else None)
  {
    hide InstantOf, RescaledTrack, Seconds, Before;
    RescaledInstant(audio, dts, l);
    RescaledInstant(video, from, k);
    BeforeIsEarlier(InstantOf(audio, dts), InstantOf(video, from));
    BeforeIsEarlier(InstantOf(RescaledTrack(audio, l), dts * l), InstantOf(RescaledTrack(video, k), from * k));
    if to.Some? {
      RescaledInstant(video, to.value, k);
      BeforeIsEarlier(InstantOf(audio, dts), InstantOf(video, to.value));
      BeforeIsEarlier(InstantOf(RescaledTrack(audio, l), dts * l), InstantOf(RescaledTrack(video, k), to.value * k));
    }
  }
}

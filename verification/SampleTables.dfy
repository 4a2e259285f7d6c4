/** A track's sample tables and the samples they place (`samplesOf`, tools/src/container.ts). */
module SampleTables {
  import opened ByteStrings

  /** A chunk of `perChunk` samples, from chunk number `firstChunk` (counted from 1) on. */
  datatype ChunkRun = ChunkRun(firstChunk: nat, perChunk: nat)

  /** `count` samples in a row with one value. */
  datatype Run<T> = Run(count: nat, value: T)

  /** The tables as stored: `uniform` is 0 when `sizes` lists every size. */
  datatype Tables = Tables(
    sampleCount: nat, uniform: nat, sizes: seq<nat>, chunkOffsets: seq<nat>, chunkRuns: seq<ChunkRun>,
    deltaRuns: seq<Run<nat>>, offsetRuns: Option<seq<Run<int>>>)

  /** One sample in decode order, its instants in media ticks. */
  datatype Sample = Sample(offset: nat, size: nat, dts: nat, duration: nat, cts: int)

  function Repeat<T>(value: T, count: nat): (s: seq<T>)
    ensures |s| == count
  {
    seq(count, _ => value)
  }

  function Expand<T>(runs: seq<Run<T>>): seq<T> {
    if |runs| == 0 then [] else Repeat(runs[0].value, runs[0].count) + Expand(runs[1..])
  }

  lemma {:induction false} ExpandAppend<T>(a: seq<Run<T>>, b: seq<Run<T>>)
    ensures Expand(a + b) == Expand(a) + Expand(b)
  {
    if |a| == 0 {
      assert a + b == b;
    } else {
      assert (a + b)[1..] == a[1..] + b;
      ExpandAppend(a[1..], b);
    }
  }

  method ExpandRuns<T>(runs: seq<Run<T>>) returns (values: seq<T>)
    ensures values == Expand(runs)
  {
    values := [];
    for i := 0 to |runs|
      invariant values == Expand(runs[..i])
    {
      var before := values;
      for n := 0 to runs[i].count
        invariant values == before + Repeat(runs[i].value, n)
      {
        values := values + [runs[i].value];
      }
      assert runs[..i + 1] == runs[..i] + [runs[i]];
      ExpandAppend(runs[..i], [runs[i]]);
      assert Expand([runs[i]]) == Repeat(runs[i].value, runs[i].count) + Expand([]);
    }
    assert runs[..|runs|] == runs;
  }

  function SizeOf(t: Tables, i: nat): nat {
    if t.uniform != 0 then t.uniform else if i < |t.sizes| then t.sizes[i] else 0
  }

  /** A sample past the table keeps the last delta. */
  function DurationOf(deltas: seq<nat>, i: nat): nat {
    if i < |deltas| then deltas[i] else if |deltas| > 0 then deltas[|deltas| - 1] else 0
  }

  function OffsetOf(offsets: seq<int>, i: nat): int {
    if i < |offsets| then offsets[i] else 0
  }

  function Deltas(t: Tables): seq<nat> {
    Expand(t.deltaRuns)
  }

  function CompositionOffsets(t: Tables): seq<int> {
    if t.offsetRuns.None? then [] else Expand(t.offsetRuns.value)
  }

  /** The sum of the first `n` durations. */
  function DtsOf(deltas: seq<nat>, n: nat): nat {
    if n == 0 then 0 else DtsOf(deltas, n - 1) + DurationOf(deltas, n - 1)
  }

  /** The last run that starts at `chunk` (counted from 0) or before it says how many samples the chunk holds. */
  function PerChunk(runs: seq<ChunkRun>, chunk: nat): nat {
    if |runs| == 0 then 0
    else if runs[|runs| - 1].firstChunk <= chunk + 1 then runs[|runs| - 1].perChunk
    else PerChunk(runs[..|runs| - 1], chunk)
  }

  /** Offsets of up to `room` samples laid one after another from `offset`. */
  function ChunkPlaces(t: Tables, sample: nat, offset: nat, room: nat): (places: seq<nat>)
    requires sample <= t.sampleCount
    ensures sample + |places| <= t.sampleCount
    decreases room
  {
    if room == 0 || sample == t.sampleCount then []
    else [offset] + ChunkPlaces(t, sample + 1, offset + SizeOf(t, sample), room - 1)
  }

  function Places(t: Tables, chunk: nat, sample: nat): (places: seq<nat>)
    requires sample <= t.sampleCount && chunk <= |t.chunkOffsets|
    ensures sample + |places| <= t.sampleCount
    decreases |t.chunkOffsets| - chunk
  {
    if chunk == |t.chunkOffsets| || sample == t.sampleCount then []
    else
      var here := ChunkPlaces(t, sample, t.chunkOffsets[chunk], PerChunk(t.chunkRuns, chunk));
      here + Places(t, chunk + 1, sample + |here|)
  }

  /** Sample `i`, stored at `place`. */
  function SampleAt(t: Tables, place: nat, i: nat): Sample {
    Sample(place, SizeOf(t, i), DtsOf(Deltas(t), i), DurationOf(Deltas(t), i), OffsetOf(CompositionOffsets(t), i))
  }

  /** Every sample of the track, or none when the chunk table places too few. */
  function Samples(t: Tables): Option<seq<Sample>> {
    var places := Places(t, 0, 0);
    if |places| != t.sampleCount then None
    else Some(seq(|places|, i requires 0 <= i < |places| => SampleAt(t, places[i], i)))
  }

  /** `samples` are the first samples of the track, stored at `places`. */
  ghost predicate StoredAt(t: Tables, samples: seq<Sample>, places: seq<nat>) {
    |samples| == |places| && forall i | 0 <= i < |samples| :: samples[i] == SampleAt(t, places[i], i)
  }

  /** The inner loop: one chunk's samples, appended. */
  method PlaceChunk(t: Tables, deltas: seq<nat>, offsets: seq<int>, before: seq<Sample>, start: nat, chunkOffset: nat, perChunk: nat,
                    ghost places: seq<nat>)
    returns (samples: seq<Sample>, dts: nat)
    requires deltas == Deltas(t) && offsets == CompositionOffsets(t)
    requires |before| <= t.sampleCount && start == DtsOf(deltas, |before|)
    requires StoredAt(t, before, places)
    ensures StoredAt(t, samples, places + ChunkPlaces(t, |before|, chunkOffset, perChunk))
    ensures dts == DtsOf(deltas, |samples|)
  {
    samples, dts := before, start;
    var offset := chunkOffset;
    var i := 0;
    ghost var placed := places;
    while i < perChunk && |samples| < t.sampleCount
      invariant 0 <= i <= perChunk && |samples| <= t.sampleCount
      invariant dts == DtsOf(deltas, |samples|)
      invariant StoredAt(t, samples, placed)
      invariant placed + ChunkPlaces(t, |samples|, offset, perChunk - i) == places + ChunkPlaces(t, |before|, chunkOffset, perChunk)
    {
      var sample := |samples|;
      var size := SizeOf(t, sample);
      var duration := DurationOf(deltas, sample);
      assert placed + ChunkPlaces(t, sample, offset, perChunk - i)
          == placed + [offset] + ChunkPlaces(t, sample + 1, offset + size, perChunk - i - 1);
      samples := samples + [Sample(offset, size, dts, duration, OffsetOf(offsets, sample))];
      placed := placed + [offset];
      dts := dts + duration;
      offset := offset + size;
      i := i + 1;
    }
    assert placed == placed + ChunkPlaces(t, |samples|, offset, perChunk - i);
  }

  method SamplesOf(t: Tables) returns (result: Option<seq<Sample>>)
    ensures result == Samples(t)
  {
    var deltas := ExpandRuns(t.deltaRuns);
    var offsets: seq<int> := [];
    if t.offsetRuns.Some? {
      offsets := ExpandRuns(t.offsetRuns.value);
    }
    var samples: seq<Sample> := [];
    ghost var places: seq<nat> := [];
    var dts: nat := 0;
    var chunk := 0;
    while chunk < |t.chunkOffsets| && |samples| < t.sampleCount
      invariant chunk <= |t.chunkOffsets| && |samples| <= t.sampleCount
      invariant dts == DtsOf(deltas, |samples|)
      invariant StoredAt(t, samples, places)
      invariant places + Places(t, chunk, |samples|) == Places(t, 0, 0)
    {
      hide Places, PerChunk, StoredAt, DtsOf;
      var perChunk := PerChunk(t.chunkRuns, chunk);
      ghost var here := ChunkPlaces(t, |samples|, t.chunkOffsets[chunk], perChunk);
      PlacesNext(t, chunk, |samples|, places);
      AsMany(t, samples, places);
      samples, dts := PlaceChunk(t, deltas, offsets, samples, dts, t.chunkOffsets[chunk], perChunk, places);
      places := places + here;
      AsMany(t, samples, places);
      chunk := chunk + 1;
    }
    assert places == Places(t, 0, 0);
    if |samples| != t.sampleCount {
      return None;
    }
    assert samples == Samples(t).value;
    return Some(samples);
  }

  lemma PlacesNext(t: Tables, chunk: nat, sample: nat, places: seq<nat>)
    requires sample < t.sampleCount && chunk < |t.chunkOffsets|
    ensures var here := ChunkPlaces(t, sample, t.chunkOffsets[chunk], PerChunk(t.chunkRuns, chunk));
            places + Places(t, chunk, sample) == places + here + Places(t, chunk + 1, sample + |here|)
  {
    hide ChunkPlaces, PerChunk;
  }

  lemma AsMany(t: Tables, samples: seq<Sample>, places: seq<nat>)
    requires StoredAt(t, samples, places)
    ensures |samples| == |places|
  {
  }

  /** Decode times are the running sum of the durations, from 0. */
  ghost predicate DtsArePrefixSums(samples: seq<Sample>) {
    && (|samples| > 0 ==> samples[0].dts == 0)
    && forall i | 0 <= i && i + 1 < |samples| :: samples[i + 1].dts == samples[i].dts + samples[i].duration
  }

  lemma SamplesDts(t: Tables)
    ensures Samples(t).Some? ==> DtsArePrefixSums(Samples(t).value)
  {
    if Samples(t).Some? {
      var samples := Samples(t).value;
      forall i | 0 <= i && i + 1 < |samples|
        ensures samples[i + 1].dts == samples[i].dts + samples[i].duration
      {
        assert DtsOf(Deltas(t), i + 1) == DtsOf(Deltas(t), i) + DurationOf(Deltas(t), i);
      }
    }
  }
}

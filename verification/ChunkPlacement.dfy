/**
 Where the sample tables place every sample (`samplesOf`, tools/src/container.ts): which
 chunk holds it, and behind how many bytes of that chunk it lies.
 */
module ChunkPlacement {
  import opened ByteStrings
  import opened SampleTables

  // ---- how many samples a chunk holds ----

  /** Run `i` is the last that starts at chunk `c` (counted from 0) or before it. */
  predicate Governs(runs: seq<ChunkRun>, c: nat, i: nat) {
    i < |runs| && runs[i].firstChunk <= c + 1 && forall j | i < j < |runs| :: runs[j].firstChunk > c + 1
  }

  /** A chunk holds what the last run starting at it or before it says, and nothing when none does. */
  lemma {:induction false} PerChunkExact(runs: seq<ChunkRun>, c: nat) returns (governing: Option<nat>)
    ensures governing.None? ==> (forall i | 0 <= i < |runs| :: runs[i].firstChunk > c + 1) && PerChunk(runs, c) == 0
    ensures governing.Some? ==> Governs(runs, c, governing.value) && PerChunk(runs, c) == runs[governing.value].perChunk
  {
    if |runs| == 0 {
      governing := None;
    } else if runs[|runs| - 1].firstChunk <= c + 1 {
      governing := Some(|runs| - 1);
    } else {
      var most := runs[..|runs| - 1];
      governing := PerChunkExact(most, c);
      assert forall i | 0 <= i < |most| :: most[i] == runs[i];
    }
  }

  /** How many samples the chunks before chunk `c` hold. */
  function HeldBefore(t: Tables, c: nat): nat {
    if c == 0 then 0 else HeldBefore(t, c - 1) + PerChunk(t.chunkRuns, c - 1)
  }

  lemma {:induction false} HeldAscends(t: Tables, c: nat, d: nat)
    requires c <= d
    ensures HeldBefore(t, c) <= HeldBefore(t, d)
    decreases d
  {
    if c < d {
      HeldAscends(t, c, d - 1);
    }
  }

  /** The bytes of samples `start` up to `end`. */
  function BytesOf(t: Tables, start: nat, end: nat): nat
    requires start <= end
    decreases end
  {
    if start == end then 0 else BytesOf(t, start, end - 1) + SizeOf(t, end - 1)
  }

  lemma {:induction false} BytesFirst(t: Tables, start: nat, end: nat)
    requires start < end
    ensures BytesOf(t, start, end) == SizeOf(t, start) + BytesOf(t, start + 1, end)
    decreases end
  {
    if start + 1 < end {
      BytesFirst(t, start, end - 1);
    }
  }

  // ---- one chunk, and all of them ----

  function Least(a: nat, b: nat): nat {
    if a <= b then a else b
  }

  lemma {:induction false} ChunkExact(t: Tables, sample: nat, offset: nat, room: nat)
    requires sample <= t.sampleCount
    ensures var places := ChunkPlaces(t, sample, offset, room);
            && |places| == Least(room, t.sampleCount - sample)
            && forall k | 0 <= k < |places| :: places[k] == offset + BytesOf(t, sample, sample + k)
    decreases room
  {
    if room > 0 && sample < t.sampleCount {
      ChunkExact(t, sample + 1, offset + SizeOf(t, sample), room - 1);
      var places := ChunkPlaces(t, sample, offset, room);
      forall k | 0 <= k < |places|
        ensures places[k] == offset + BytesOf(t, sample, sample + k)
      {
        if k > 0 {
          BytesFirst(t, sample, sample + k);
        }
      }
    }
  }

  /** Sample `i` lies in chunk `c`, behind the samples the chunk holds before it. */
  predicate LiesInChunk(t: Tables, i: nat, place: nat, c: nat) {
    && c < |t.chunkOffsets| && HeldBefore(t, c) <= i < HeldBefore(t, c) + PerChunk(t.chunkRuns, c)
    && place == t.chunkOffsets[c] + BytesOf(t, HeldBefore(t, c), i)
  }

  /** Sample `i` lies in one of the chunks from `first` on. */
  predicate LiesFrom(t: Tables, first: nat, i: nat, place: nat) {
    exists c | first <= c < |t.chunkOffsets| :: LiesInChunk(t, i, place, c)
  }

  lemma {:induction false} PlacesExact(t: Tables, chunk: nat)
    requires chunk <= |t.chunkOffsets| && HeldBefore(t, chunk) <= t.sampleCount
    ensures var before, places := HeldBefore(t, chunk), Places(t, chunk, HeldBefore(t, chunk));
            && before + |places| == Least(HeldBefore(t, |t.chunkOffsets|), t.sampleCount)
            && forall k | 0 <= k < |places| :: LiesFrom(t, chunk, before + k, places[k])
    decreases |t.chunkOffsets| - chunk
  {
    hide Places, ChunkPlaces, PerChunk, LiesFrom, HeldBefore;
    HeldAscends(t, chunk, |t.chunkOffsets|);
    var before := HeldBefore(t, chunk);
    if chunk == |t.chunkOffsets| || before == t.sampleCount {
      NoMorePlaces(t, chunk, before);
    } else {
      InThisChunk(t, chunk);
      PlacesStep(t, chunk);
      HeldAscends(t, chunk + 1, |t.chunkOffsets|);
      if HeldBefore(t, chunk + 1) <= t.sampleCount {
        PlacesExact(t, chunk + 1);
        var here := ChunkPlaces(t, before, t.chunkOffsets[chunk], PerChunk(t.chunkRuns, chunk));
        ThisAndLater(t, chunk, before, here, Places(t, chunk + 1, before + |here|));
      }
    }
  }

  lemma NoMorePlaces(t: Tables, chunk: nat, sample: nat)
    requires sample <= t.sampleCount && chunk <= |t.chunkOffsets| && (chunk == |t.chunkOffsets| || sample == t.sampleCount)
    ensures Places(t, chunk, sample) == []
  {
  }

  lemma PlacesStep(t: Tables, chunk: nat)
    requires chunk < |t.chunkOffsets| && HeldBefore(t, chunk) < t.sampleCount
    ensures var before, held := HeldBefore(t, chunk), PerChunk(t.chunkRuns, chunk);
            var here := ChunkPlaces(t, before, t.chunkOffsets[chunk], held);
            && HeldBefore(t, chunk + 1) == before + held
            && Places(t, chunk, before) == here + Places(t, chunk + 1, before + |here|)
            && (before + |here| == t.sampleCount ==> Places(t, chunk, before) == here)
  {
    hide ChunkPlaces, PerChunk;
  }

  lemma ThisAndLater(t: Tables, chunk: nat, before: nat, here: seq<nat>, rest: seq<nat>)
    requires forall k | 0 <= k < |here| :: LiesFrom(t, chunk, before + k, here[k])
    requires forall k | 0 <= k < |rest| :: LiesFrom(t, chunk + 1, before + |here| + k, rest[k])
    ensures forall k | 0 <= k < |here + rest| :: LiesFrom(t, chunk, before + k, (here + rest)[k])
  {
    hide LiesFrom;
    forall k | |here| <= k < |here + rest|
      ensures LiesFrom(t, chunk, before + k, (here + rest)[k])
    {
      var r := k - |here|;
      assert LiesFrom(t, chunk + 1, before + |here| + r, rest[r]);
      LiesLater(t, chunk, before + k, rest[r]);
    }
  }

  lemma InThisChunk(t: Tables, chunk: nat)
    requires chunk < |t.chunkOffsets| && HeldBefore(t, chunk) < t.sampleCount
    ensures var before, held := HeldBefore(t, chunk), PerChunk(t.chunkRuns, chunk);
            var here := ChunkPlaces(t, before, t.chunkOffsets[chunk], held);
            |here| == Least(held, t.sampleCount - before) && forall k | 0 <= k < |here| :: LiesFrom(t, chunk, before + k, here[k])
  {
    var before, held := HeldBefore(t, chunk), PerChunk(t.chunkRuns, chunk);
    hide ChunkPlaces, PerChunk, BytesOf, HeldBefore, LiesFrom;
    ChunkExact(t, before, t.chunkOffsets[chunk], held);
    var here := ChunkPlaces(t, before, t.chunkOffsets[chunk], held);
    forall k | 0 <= k < |here|
      ensures LiesFrom(t, chunk, before + k, here[k])
    {
      LiesHere(t, chunk, before + k, here[k]);
    }
  }

  lemma LiesHere(t: Tables, chunk: nat, i: nat, place: nat)
    requires LiesInChunk(t, i, place, chunk)
    ensures LiesFrom(t, chunk, i, place)
  {
  }

  lemma LiesLater(t: Tables, chunk: nat, i: nat, place: nat)
    requires LiesFrom(t, chunk + 1, i, place)
    ensures LiesFrom(t, chunk, i, place)
  {
    hide LiesInChunk;
  }

  /** The chunks before `c` hold too many samples for `i` to lie in `c` and in an earlier one. */
  lemma OneChunk(t: Tables, i: nat, place: nat, c: nat, place': nat, d: nat)
    requires LiesInChunk(t, i, place, c) && LiesInChunk(t, i, place', d)
    ensures c == d && place == place'
  {
    hide PerChunk;
    if c < d {
      HeldAscends(t, c + 1, d);
    } else if d < c {
      HeldAscends(t, d + 1, c);
    }
  }

  /**
   Every sample lies in one chunk: the chunks before it hold fewer samples than its number
   and with it more; and it lies there behind the samples of that chunk before it. There is
   no reading exactly when all chunks together hold too few samples.
   */
  lemma SamplesExact(t: Tables)
    ensures Samples(t).None? <==> HeldBefore(t, |t.chunkOffsets|) < t.sampleCount
    ensures Samples(t).Some? ==>
              && |Samples(t).value| == t.sampleCount
              && forall i | 0 <= i < t.sampleCount ::
                   && Samples(t).value[i].size == (if t.uniform != 0 then t.uniform else if i < |t.sizes| then t.sizes[i] else 0)
                   && LiesFrom(t, 0, i, Samples(t).value[i].offset)
  {
    NothingBefore(t);
    hide Places, LiesFrom, HeldBefore, Deltas, CompositionOffsets, DtsOf;
    PlacesExact(t, 0);
    var places := Places(t, 0, 0);
    forall i | 0 <= i < |places|
      ensures LiesFrom(t, 0, i, places[i])
    {
      assert 0 + i == i;
    }
  }

  lemma NothingBefore(t: Tables)
    ensures HeldBefore(t, 0) == 0
  {
  }

  // ---- durations and composition offsets ----

  /** How many values the runs before run `r` stand for. */
  function CountedBefore<T>(runs: seq<Run<T>>, r: nat): nat
    requires r <= |runs|
  {
    if r == 0 then 0 else CountedBefore(runs, r - 1) + runs[r - 1].count
  }

  /** Value `i` is that of the run the count reaches it in. */
  lemma {:induction false} ExpandAt<T>(runs: seq<Run<T>>, r: nat, k: nat)
    requires r < |runs| && k < runs[r].count
    ensures CountedBefore(runs, r) + k < |Expand(runs)| && Expand(runs)[CountedBefore(runs, r) + k] == runs[r].value
    ensures |Expand(runs)| == CountedBefore(runs, |runs|)
  {
    ExpandLength(runs, r);
    ExpandLength(runs, |runs|);
    assert runs[..|runs|] == runs;
    assert runs == runs[..r] + runs[r..];
    ExpandAppend(runs[..r], runs[r..]);
    assert Expand(runs[r..]) == Repeat(runs[r].value, runs[r].count) + Expand(runs[r..][1..]);
  }

  lemma {:induction false} ExpandLength<T>(runs: seq<Run<T>>, r: nat)
    requires r <= |runs|
    ensures |Expand(runs[..r])| == CountedBefore(runs, r)
  {
    if r > 0 {
      ExpandLength(runs, r - 1);
      assert runs[..r] == runs[..r - 1] + [runs[r - 1]];
      ExpandAppend(runs[..r - 1], [runs[r - 1]]);
      assert Expand([runs[r - 1]]) == Repeat(runs[r - 1].value, runs[r - 1].count) + Expand([]);
    }
  }

  /** A sample lasts what the delta table says, past it what its last entry says; and it is composed where the offset table says, past it at its decode time. */
  lemma TimesExact(t: Tables, i: nat)
    requires Samples(t).Some? && i < t.sampleCount
    ensures |Samples(t).value| == t.sampleCount
    ensures var sample, deltas := Samples(t).value[i], Expand(t.deltaRuns);
            && (i < |deltas| ==> sample.duration == deltas[i])
            && (i >= |deltas| > 0 ==> sample.duration == deltas[|deltas| - 1])
            && (|deltas| == 0 ==> sample.duration == 0)
            && (t.offsetRuns.Some? && i < |Expand(t.offsetRuns.value)| ==> sample.cts == Expand(t.offsetRuns.value)[i])
            && (t.offsetRuns.None? || i >= |Expand(t.offsetRuns.value)| ==> sample.cts == 0)
  {
    hide Places, Expand, DtsOf;
  }
}

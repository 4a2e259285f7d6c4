/**
 The writer that cuts and rewrites tracks (tools/src/remux.ts): run-length tables, one
 sample a chunk, and replaced samples appended behind a `moov` laid out twice.
 */
module Remux {
  import opened ByteStrings
  import opened SampleTables
  import opened TableBytes
  import opened Timing

  /** The bytes of a track's other boxes, around the ones rewritten, in file order. */
  datatype Around = Around(trakBefore: Buffer, mdiaBefore: Buffer, minfBefore: Buffer, stsd: Buffer, minfAfter: Buffer, mdiaAfter: Buffer, trakAfter: Buffer)

  /** A track of the source file; `sync` is none when it has no `stss`. */
  datatype Source = Source(tables: Tables, timescale: nat, sync: Option<set<nat>>, around: Around)

  /** `retime` gives a sample's new duration from its old one and its index. */
  datatype Plan = Plan(
    samples: seq<nat>, delay: nat, replace: map<nat, Buffer>, syncAll: bool, retime: (nat, nat) -> nat, cts: Option<seq<int>>, timescale: Option<nat>)

  /** One child of `moov`: copied, or a track rewritten to a plan. */
  datatype Part = Kept(bytes: Buffer) | Planned(source: Source, plan: Plan)

  /** The source's samples are readable, the plan names them, and it gives one composition offset a sample. */
  predicate Plannable(source: Source, plan: Plan) {
    && Samples(source.tables).Some?
    && (forall n | 0 <= n < |plan.samples| :: plan.samples[n] < |Samples(source.tables).value| && plan.samples[n] < |Deltas(source.tables)|)
    && (plan.cts.Some? ==> |plan.cts.value| == |plan.samples|)
  }

  // ---- what the plan asks for, position by position ----

  function NewDuration(source: Source, plan: Plan, n: nat): nat
    requires Plannable(source, plan) && n < |plan.samples|
  {
    plan.retime(Deltas(source.tables)[plan.samples[n]], plan.samples[n])
  }

  function NewDurations(source: Source, plan: Plan): seq<nat>
    requires Plannable(source, plan)
  {
    seq(|plan.samples|, n requires 0 <= n < |plan.samples| => NewDuration(source, plan, n))
  }

  function NewSize(source: Source, plan: Plan, n: nat): nat
    requires Plannable(source, plan) && n < |plan.samples|
  {
    var i := plan.samples[n];
    if i in plan.replace then |plan.replace[i]| else Samples(source.tables).value[i].size
  }

  function NewSizes(source: Source, plan: Plan): seq<nat>
    requires Plannable(source, plan)
  {
    seq(|plan.samples|, n requires 0 <= n < |plan.samples| => NewSize(source, plan, n))
  }

  /** The replacements of the first `n` positions, in order; a sample named twice is written twice. */
  function Replacements(plan: Plan, n: nat): seq<Buffer>
    requires n <= |plan.samples|
  {
    if n == 0 then []
    else
      var i := plan.samples[n - 1];
      Replacements(plan, n - 1) + if i in plan.replace then [plan.replace[i]] else []
  }

  /** A kept sample stays where it is; a replaced one goes behind those before it. */
  function NewOffset(source: Source, plan: Plan, start: nat, n: nat): nat
    requires Plannable(source, plan) && n < |plan.samples|
  {
    var i := plan.samples[n];
    if i in plan.replace then start + |Concat(Replacements(plan, n))| else Samples(source.tables).value[i].offset
  }

  function NewOffsets(source: Source, plan: Plan, start: nat): seq<nat>
    requires Plannable(source, plan)
  {
    seq(|plan.samples|, n requires 0 <= n < |plan.samples| => NewOffset(source, plan, start, n))
  }

  // ---- run-length coding ----

  /** Runs of equal values, the last one extended while the value repeats. */
  function RunsOf(values: seq<nat>): (runs: seq<Run<nat>>)
    ensures |runs| <= |values|
  {
    if |values| == 0 then []
    else
      var runs, value := RunsOf(values[..|values| - 1]), values[|values| - 1];
      if |runs| > 0 && runs[|runs| - 1].value == value then runs[..|runs| - 1] + [Run(runs[|runs| - 1].count + 1, value)]
      else runs + [Run(1, value)]
  }

  /** No empty run, and no two neighbours of one value. */
  predicate Compact(runs: seq<Run<nat>>) {
    && (forall i | 0 <= i < |runs| :: runs[i].count > 0)
    && forall i | 0 <= i && i + 1 < |runs| :: runs[i].value != runs[i + 1].value
  }

  lemma ExpandPush(runs: seq<Run<nat>>, last: Run<nat>)
    ensures Expand(runs + [last]) == Expand(runs) + Repeat(last.value, last.count)
  {
    ExpandAppend(runs, [last]);
    assert Expand([last]) == Repeat(last.value, last.count) + Expand([]);
  }

  /** Expanding the runs gives the values back. */
  lemma {:induction false} RunsExpand(values: seq<nat>)
    ensures Expand(RunsOf(values)) == values
  {
    if |values| > 0 {
      var n := |values| - 1;
      var runs, value := RunsOf(values[..n]), values[n];
      RunsExpand(values[..n]);
      assert values == values[..n] + [value];
      if |runs| > 0 && runs[|runs| - 1].value == value {
        var m := |runs| - 1;
        assert runs == runs[..m] + [Run(runs[m].count, value)];
        ExpandLonger(runs[..m], value, runs[m].count);
      } else {
        ExpandPush(runs, Run(1, value));
        assert Repeat(value, 1) == [value];
      }
    }
  }

  lemma ExpandLonger(runs: seq<Run<nat>>, value: nat, count: nat)
    ensures Expand(runs + [Run(count + 1, value)]) == Expand(runs + [Run(count, value)]) + [value]
  {
    ExpandPush(runs, Run(count, value));
    ExpandPush(runs, Run(count + 1, value));
    assert Repeat(value, count + 1) == Repeat(value, count) + [value];
  }

  /** And the runs are as few as can be. */
  lemma {:induction false} RunsCompact(values: seq<nat>)
    ensures Compact(RunsOf(values))
  {
    if |values| > 0 {
      RunsCompact(values[..|values| - 1]);
    }
  }

  /** Run lengths and values are bounded by what they code. */
  lemma {:induction false} RunsBounded(values: seq<nat>, limit: nat)
    requires |values| < limit && forall n | 0 <= n < |values| :: values[n] < limit
    ensures forall i | 0 <= i < |RunsOf(values)| :: RunsOf(values)[i].value < limit && RunsOf(values)[i].count <= |values|
  {
    if |values| > 0 {
      RunsBounded(values[..|values| - 1], limit);
    }
  }

  method CollectRuns(values: seq<nat>) returns (runs: seq<Run<nat>>)
    ensures runs == RunsOf(values)
  {
    runs := [];
    for n := 0 to |values|
      invariant runs == RunsOf(values[..n])
    {
      assert values[..n + 1][..n] == values[..n];
      var last := |runs| - 1;
      if last >= 0 && runs[last].value == values[n] {
        runs := runs[last := Run(runs[last].count + 1, values[n])];
      } else {
        runs := runs + [Run(1, values[n])];
      }
    }
    assert values[..|values|] == values;
  }

  // ---- the bytes ----

  function U32(value: nat): Buffer {
    BigEndian(value, 4)
  }

  function Box(name: Buffer, payload: Buffer): (b: Buffer)
    ensures |b| == 4 + |name| + |payload|
  {
    U32(8 + |payload|) + name + payload
  }

  const STBL: Buffer := [0x73, 0x74, 0x62, 0x6c]
  const STTS: Buffer := [0x73, 0x74, 0x74, 0x73]
  const CTTS: Buffer := [0x63, 0x74, 0x74, 0x73]
  const STSS: Buffer := [0x73, 0x74, 0x73, 0x73]
  const STSZ: Buffer := [0x73, 0x74, 0x73, 0x7a]
  const STSC: Buffer := [0x73, 0x74, 0x73, 0x63]
  const CO64: Buffer := [0x63, 0x6f, 0x36, 0x34]
  const EDTS: Buffer := [0x65, 0x64, 0x74, 0x73]
  const ELST: Buffer := [0x65, 0x6c, 0x73, 0x74]
  const MDIA: Buffer := [0x6d, 0x64, 0x69, 0x61]
  const MINF: Buffer := [0x6d, 0x69, 0x6e, 0x66]
  const TRAK: Buffer := [0x74, 0x72, 0x61, 0x6b]
  const MOOV: Buffer := [0x6d, 0x6f, 0x6f, 0x76]
  const MDAT: Buffer := [0x6d, 0x64, 0x61, 0x74]

  /** Numbers, counted from 1, of the first `n` positions that are sync samples. */
  function Synced(source: Source, plan: Plan, n: nat): seq<nat>
    requires n <= |plan.samples|
  {
    if n == 0 then []
    else
      var keeps := plan.syncAll || source.sync.None? || plan.samples[n - 1] in source.sync.value;
      Synced(source, plan, n - 1) + if keeps then [n] else []
  }

  predicate Int32s(cts: Option<seq<int>>) {
    cts.Some? ==> forall i | 0 <= i < |cts.value| :: IsInt32(cts.value[i])
  }

  function TablePayloads(source: Source, plan: Plan, offsets: seq<nat>): Payloads
    requires Plannable(source, plan) && Int32s(plan.cts)
  {
    Written(RunsOf(NewDurations(source, plan)), plan.cts, NewSizes(source, plan), offsets)
  }

  /** `stsd` kept, every other table from the plan. */
  function StblBytes(source: Source, plan: Plan, offsets: seq<nat>): Buffer
    requires Plannable(source, plan) && Int32s(plan.cts)
  {
    var p := TablePayloads(source, plan, offsets);
    var synced := Synced(source, plan, |plan.samples|);
    Box(STBL,
        source.around.stsd + Box(STTS, p.stts)
        + (if p.ctts.Some? then Box(CTTS, p.ctts.value) else [])
        + (if source.sync.Some? || plan.syncAll then Box(STSS, Counted(|synced|, synced, 4)) else [])
        + Box(STSZ, p.stsz) + Box(STSC, p.stsc) + Box(CO64, p.co64))
  }

  function Sum(values: seq<nat>): nat {
    if |values| == 0 then 0 else Sum(values[..|values| - 1]) + values[|values| - 1]
  }

  function MediaScale(source: Source, plan: Plan): nat {
    if plan.timescale.Some? then plan.timescale.value else source.timescale
  }

  /** The media edit's duration: the kept media rounded down into movie ticks. */
  function EditDuration(source: Source, plan: Plan, movieScale: nat): nat
    requires Plannable(source, plan) && MediaScale(source, plan) > 0
  {
    var duration := Floored(Sum(NewDurations(source, plan)), movieScale, MediaScale(source, plan));
    if duration < 0 then 0 else duration
  }

  const RATE_1: Buffer := [0, 1, 0, 0]

  /** An empty edit of `delay` movie ticks, then the media. */
  function ElstBytes(delay: nat, duration: nat): Buffer {
    Box(EDTS, Box(ELST, VERSION_0 + U32(2) + U32(delay) + [0xff, 0xff, 0xff, 0xff] + RATE_1 + U32(duration) + U32(0) + RATE_1))
  }

  predicate PartFits(source: Source, plan: Plan, movieScale: nat) {
    && Plannable(source, plan) && Int32s(plan.cts)
    && |plan.samples| < 0x1_0000_0000
    && (forall n | 0 <= n < |plan.samples| :: NewDuration(source, plan, n) < 0x1_0000_0000 && NewSize(source, plan, n) < 0x1_0000_0000)
    && (plan.delay > 0 ==> plan.delay < 0x1_0000_0000 && MediaScale(source, plan) > 0 && EditDuration(source, plan, movieScale) < 0x1_0000_0000)
  }

  predicate PartsFit(parts: seq<Part>, movieScale: nat) {
    forall k | 0 <= k < |parts| && parts[k].Planned? :: PartFits(parts[k].source, parts[k].plan, movieScale)
  }

  function TrakBytes(source: Source, plan: Plan, movieScale: nat, offsets: seq<nat>): Buffer
    requires PartFits(source, plan, movieScale)
  {
    var a := source.around;
    Box(TRAK,
        a.trakBefore + (if plan.delay > 0 then ElstBytes(plan.delay, EditDuration(source, plan, movieScale)) else [])
        + Box(MDIA, a.mdiaBefore + Box(MINF, a.minfBefore + StblBytes(source, plan, offsets) + a.minfAfter) + a.mdiaAfter)
        + a.trakAfter)
  }

  /** Replacements of the parts before part `k`, in order. */
  function Extra(parts: seq<Part>, k: nat): seq<Buffer>
    requires k <= |parts|
  {
    if k == 0 then []
    else Extra(parts, k - 1) + if parts[k - 1].Planned? then Replacements(parts[k - 1].plan, |parts[k - 1].plan.samples|) else []
  }

  /** Where the replacements of part `k` begin: behind `moov` and the header of the appended `mdat`. */
  function Start(parts: seq<Part>, headLength: nat, moovSize: nat, k: nat): nat
    requires k <= |parts|
  {
    headLength + moovSize + 8 + |Concat(Extra(parts, k))|
  }

  function PartBytes(parts: seq<Part>, movieScale: nat, headLength: nat, moovSize: nat, k: nat): Buffer
    requires k < |parts| && PartsFit(parts, movieScale)
  {
    match parts[k]
    case Kept(bytes) => bytes
    case Planned(source, plan) => TrakBytes(source, plan, movieScale, NewOffsets(source, plan, Start(parts, headLength, moovSize, k)))
  }

  function MoovPayload(parts: seq<Part>, movieScale: nat, headLength: nat, moovSize: nat, k: nat): Buffer
    requires k <= |parts| && PartsFit(parts, movieScale)
  {
    if k == 0 then [] else MoovPayload(parts, movieScale, headLength, moovSize, k - 1) + PartBytes(parts, movieScale, headLength, moovSize, k - 1)
  }

  /** `moov` laid out for a `moov` of `moovSize` bytes. */
  function Moov(parts: seq<Part>, movieScale: nat, headLength: nat, moovSize: nat): Buffer
    requires PartsFit(parts, movieScale)
  {
    Box(MOOV, MoovPayload(parts, movieScale, headLength, moovSize, |parts|))
  }

  // ---- one size in both passes ----

  lemma StblSizeFixed(source: Source, plan: Plan, a: seq<nat>, b: seq<nat>)
    requires Plannable(source, plan) && Int32s(plan.cts) && |a| == |b|
    ensures |StblBytes(source, plan, a)| == |StblBytes(source, plan, b)|
  {
    hide Samples, NewDurations, NewSizes, RunsOf, Synced, FlatRuns, Fields, BigEndian, Deltas, CttsBytes;
  }

  lemma StblSizeIn(source: Source, plan: Plan, movieScale: nat, a: seq<nat>, b: seq<nat>)
    requires PartFits(source, plan, movieScale) && |a| == |b|
    ensures |TrakBytes(source, plan, movieScale, a)| == |TrakBytes(source, plan, movieScale, b)|
  {
    hide StblBytes, ElstBytes, EditDuration, Samples;
    StblSizeFixed(source, plan, a, b);
  }

  lemma PartSizeFixed(parts: seq<Part>, movieScale: nat, headLength: nat, s: nat, s': nat, k: nat)
    requires k < |parts| && PartsFit(parts, movieScale)
    ensures |PartBytes(parts, movieScale, headLength, s, k)| == |PartBytes(parts, movieScale, headLength, s', k)|
  {
    if parts[k].Planned? {
      var source, plan := parts[k].source, parts[k].plan;
      assert PartFits(source, plan, movieScale) && Plannable(source, plan);
      hide PartFits, NewOffset, Plannable, TrakBytes, Start, PartsFit;
      StblSizeIn(source, plan, movieScale, NewOffsets(source, plan, Start(parts, headLength, s, k)), NewOffsets(source, plan, Start(parts, headLength, s', k)));
    }
  }

  lemma {:induction false} PayloadSizeFixed(parts: seq<Part>, movieScale: nat, headLength: nat, s: nat, s': nat, k: nat)
    requires k <= |parts| && PartsFit(parts, movieScale)
    ensures |MoovPayload(parts, movieScale, headLength, s, k)| == |MoovPayload(parts, movieScale, headLength, s', k)|
  {
    hide PartsFit, PartBytes;
    if k > 0 {
      PayloadSizeFixed(parts, movieScale, headLength, s, s', k - 1);
      PartSizeFixed(parts, movieScale, headLength, s, s', k - 1);
    }
  }

  /** The size of `moov` does not depend on the offsets written in it, so the first pass learns it. */
  lemma MoovSizeFixed(parts: seq<Part>, movieScale: nat, headLength: nat, s: nat, s': nat)
    requires PartsFit(parts, movieScale)
    ensures |Moov(parts, movieScale, headLength, s)| == |Moov(parts, movieScale, headLength, s')|
  {
    hide PartsFit, MoovPayload;
    PayloadSizeFixed(parts, movieScale, headLength, s, s', |parts|);
  }

  // ---- the whole file ----

  function MoovSize(parts: seq<Part>, movieScale: nat, headLength: nat): nat
    requires PartsFit(parts, movieScale)
  {
    |Moov(parts, movieScale, headLength, 0)|
  }

  /** Every field fits the width it is written in; the writer throws at the first that does not. */
  predicate Fits(parts: seq<Part>, movieScale: nat, headLength: nat) {
    && PartsFit(parts, movieScale)
    && var size := MoovSize(parts, movieScale, headLength);
    && size < 0x1_0000_0000 && 8 + |Concat(Extra(parts, |parts|))| < 0x1_0000_0000
    && forall k | 0 <= k < |parts| && parts[k].Planned? ::
         FitIn(NewOffsets(parts[k].source, parts[k].plan, Start(parts, headLength, size, k)), 8)
  }

  /** The head as it was, the new `moov`, and an `mdat` of the replacements when there are any. */
  function Remuxed(head: Buffer, parts: seq<Part>, movieScale: nat): Buffer
    requires PartsFit(parts, movieScale)
  {
    var extra := Extra(parts, |parts|);
    head + Moov(parts, movieScale, |head|, MoovSize(parts, movieScale, |head|)) + if |extra| > 0 then Box(MDAT, Concat(extra)) else []
  }

  // ---- what a reader finds ----

  /** The tables of one part as they read back. */
  function NewTables(source: Source, plan: Plan, offsets: seq<nat>): Tables
    requires Plannable(source, plan)
  {
    Tables(|plan.samples|, 0, NewSizes(source, plan), offsets, [ChunkRun(1, 1)], RunsOf(NewDurations(source, plan)),
           if plan.cts.None? then None else Some(SingleRuns(plan.cts.value)))
  }

  lemma TablesReadBack(source: Source, plan: Plan, movieScale: nat, offsets: seq<nat>)
    requires PartFits(source, plan, movieScale) && |offsets| == |plan.samples| && FitIn(offsets, 8)
    ensures ReadTables(TablePayloads(source, plan, offsets)) == Some(NewTables(source, plan, offsets))
  {
    var durations, sizes := NewDurations(source, plan), NewSizes(source, plan);
    Widths();
    RunsBounded(durations, 0x1_0000_0000);
    assert FitIn(sizes, 4);
    hide Plannable, ReadTables, Written, NewSizes, NewDurations, RunsOf, FitIn;
    WrittenReadsBack(RunsOf(durations), plan.cts, sizes, offsets);
  }

  lemma {:induction false} SinglesExpand(cts: seq<int>)
    ensures Expand(SingleRuns(cts)) == cts
  {
    if |cts| > 0 {
      assert SingleRuns(cts)[1..] == SingleRuns(cts[1..]);
      SinglesExpand(cts[1..]);
      assert Repeat(cts[0], 1) == [cts[0]];
    }
  }

  /** One sample a chunk: sample `k` is stored where chunk `k` begins. */
  lemma {:induction false} OneEach(t: Tables, k: nat)
    requires t.chunkRuns == [ChunkRun(1, 1)] && |t.chunkOffsets| == t.sampleCount && k <= t.sampleCount
    ensures Places(t, k, k) == t.chunkOffsets[k..]
    decreases t.sampleCount - k
  {
    if k < t.sampleCount {
      assert PerChunk(t.chunkRuns, k) == 1;
      assert ChunkPlaces(t, k + 1, t.chunkOffsets[k] + SizeOf(t, k), 0) == [];
      assert ChunkPlaces(t, k, t.chunkOffsets[k], 1) == [t.chunkOffsets[k]];
      OneEach(t, k + 1);
    }
  }

  lemma {:induction false} DtsIsSum(deltas: seq<nat>, n: nat)
    requires n <= |deltas|
    ensures DtsOf(deltas, n) == Sum(deltas[..n])
  {
    if n > 0 {
      DtsIsSum(deltas, n - 1);
      assert deltas[..n][..n - 1] == deltas[..n - 1];
    }
  }

  /** A position's sample as the plan has it: decoded after all durations before it. */
  function PlannedSample(source: Source, plan: Plan, offsets: seq<nat>, n: nat): Sample
    requires Plannable(source, plan) && n < |plan.samples| == |offsets|
  {
    Sample(offsets[n], NewSize(source, plan, n), Sum(NewDurations(source, plan)[..n]), NewDuration(source, plan, n),
           if plan.cts.None? then 0 else plan.cts.value[n])
  }

  /** The reader finds exactly the planned samples, at the planned times. */
  lemma SamplesArePlanned(source: Source, plan: Plan, offsets: seq<nat>)
    requires Plannable(source, plan) && |offsets| == |plan.samples|
    ensures var samples := Samples(NewTables(source, plan, offsets));
            && samples.Some? && |samples.value| == |plan.samples|
            && forall n | 0 <= n < |plan.samples| :: samples.value[n] == PlannedSample(source, plan, offsets, n)
  {
    var t := NewTables(source, plan, offsets);
    var durations := NewDurations(source, plan);
    RunsExpand(durations);
    if plan.cts.Some? {
      SinglesExpand(plan.cts.value);
    }
    OneEach(t, 0);
    assert Places(t, 0, 0) == offsets;
    hide Places, RunsOf, Expand, Plannable, NewDuration, NewSize;
    forall n | 0 <= n < |plan.samples|
      ensures SampleAt(t, offsets[n], n) == PlannedSample(source, plan, offsets, n)
    {
      DtsIsSum(durations, n);
    }
  }

  // ---- the bytes at the offsets ----

  lemma {:induction false} ConcatAt<T>(a: seq<seq<T>>, part: seq<T>, b: seq<seq<T>>)
    ensures var all := Concat(a + [part] + b);
            |Concat(a)| + |part| <= |all| && all[|Concat(a)|..|Concat(a)| + |part|] == part
  {
    ConcatAppend(a + [part], b);
    ConcatPush(a, part);
  }

  lemma {:induction false} ReplacementsSplit(plan: Plan, n: nat, all: nat) returns (after: seq<Buffer>)
    requires n < all <= |plan.samples| && plan.samples[n] in plan.replace
    ensures Replacements(plan, all) == Replacements(plan, n) + [plan.replace[plan.samples[n]]] + after
    decreases all
  {
    if n + 1 == all {
      after := [];
    } else {
      after := ReplacementsSplit(plan, n, all - 1);
      after := after + if plan.samples[all - 1] in plan.replace then [plan.replace[plan.samples[all - 1]]] else [];
    }
  }

  lemma {:induction false} ExtraSplit(parts: seq<Part>, k: nat, all: nat) returns (after: seq<Buffer>)
    requires k < all <= |parts| && parts[k].Planned?
    ensures Extra(parts, all) == Extra(parts, k) + Replacements(parts[k].plan, |parts[k].plan.samples|) + after
    decreases all
  {
    hide Replacements;
    if k + 1 == all {
      after := [];
    } else {
      after := ExtraSplit(parts, k, all - 1);
      after := after + if parts[all - 1].Planned? then Replacements(parts[all - 1].plan, |parts[all - 1].plan.samples|) else [];
    }
  }

  /** A replacement stands in the appended bytes where its offset counts to. */
  lemma ReplacementAt(parts: seq<Part>, k: nat, n: nat)
    requires k < |parts| && parts[k].Planned? && n < |parts[k].plan.samples| && parts[k].plan.samples[n] in parts[k].plan.replace
    ensures var plan := parts[k].plan;
            var r, all := plan.replace[plan.samples[n]], Concat(Extra(parts, |parts|));
            var at := |Concat(Extra(parts, k))| + |Concat(Replacements(plan, n))|;
            at + |r| <= |all| && all[at..at + |r|] == r && |Extra(parts, |parts|)| > 0
  {
    hide Extra, Replacements, Concat;
    var plan := parts[k].plan;
    var r := plan.replace[plan.samples[n]];
    var after := ExtraSplit(parts, k, |parts|);
    var within := ReplacementsSplit(plan, n, |plan.samples|);
    var before := Extra(parts, k) + Replacements(plan, n);
    ConcatAppend(Extra(parts, k), Replacements(plan, n));
    ConcatAt(before, r, within + after);
    assert Extra(parts, |parts|) == before + [r] + (within + after);
  }

  /** The bytes the plan puts at position `n`: the replacement, or the source's own sample. */
  function PlannedBytes(file: Buffer, source: Source, plan: Plan, n: nat): Buffer
    requires Plannable(source, plan) && n < |plan.samples|
    requires var sample := Samples(source.tables).value[plan.samples[n]]; sample.offset + sample.size <= |file|
  {
    var i := plan.samples[n];
    var sample := Samples(source.tables).value[i];
    if i in plan.replace then plan.replace[i] else file[sample.offset..sample.offset + sample.size]
  }

  /** Every sample of the plan lies before `moov`, in the bytes that are kept. */
  predicate BeforeMoov(source: Source, plan: Plan, headLength: nat)
    requires Plannable(source, plan)
  {
    forall n | 0 <= n < |plan.samples| ::
      var sample := Samples(source.tables).value[plan.samples[n]]; sample.offset + sample.size <= headLength
  }

  lemma TailAt(front: Buffer, payload: Buffer, at: nat, part: Buffer)
    requires at + |part| <= |payload| && payload[at..at + |part|] == part
    ensures var out := front + Box(MDAT, payload);
            var start := |front| + 8 + at;
            start + |part| <= |out| && out[start..start + |part|] == part
  {
    hide BigEndian;
    var out := front + Box(MDAT, payload);
    assert out[|front| + 8..] == payload;
    assert out[|front| + 8 + at..|front| + 8 + at + |part|] == payload[at..at + |part|];
  }

  lemma OffsetHoldsBytes(head: Buffer, parts: seq<Part>, movieScale: nat, k: nat, n: nat)
    requires PartsFit(parts, movieScale) && k < |parts| && parts[k].Planned? && n < |parts[k].plan.samples|
    requires Plannable(parts[k].source, parts[k].plan) && BeforeMoov(parts[k].source, parts[k].plan, |head|)
    ensures var source, plan, out := parts[k].source, parts[k].plan, Remuxed(head, parts, movieScale);
            var at := NewOffset(source, plan, Start(parts, |head|, MoovSize(parts, movieScale, |head|), k), n);
            at + NewSize(source, plan, n) <= |out| && out[at..at + NewSize(source, plan, n)] == PlannedBytes(head, source, plan, n)
  {
    hide PartsFit, Moov, Samples, Concat, Replacements, Extra;
    var source, plan := parts[k].source, parts[k].plan;
    var moov := Moov(parts, movieScale, |head|, MoovSize(parts, movieScale, |head|));
    MoovSizeFixed(parts, movieScale, |head|, 0, MoovSize(parts, movieScale, |head|));
    if plan.samples[n] in plan.replace {
      ReplacementAt(parts, k, n);
      TailAt(head + moov, Concat(Extra(parts, |parts|)), |Concat(Extra(parts, k))| + |Concat(Replacements(plan, n))|, plan.replace[plan.samples[n]]);
    } else {
      var sample := Samples(source.tables).value[plan.samples[n]];
      assert sample.offset + sample.size <= |head|;
      assert Remuxed(head, parts, movieScale)[..|head|] == head;
    }
  }

  /** A sample read back is the plan's, and the file holds the planned bytes at its offset. */
  ghost predicate Plays(head: Buffer, source: Source, plan: Plan, offsets: seq<nat>, out: Buffer, samples: seq<Sample>, n: nat)
    requires Plannable(source, plan) && BeforeMoov(source, plan, |head|) && n < |plan.samples| == |offsets| == |samples|
  {
    var sample := samples[n];
    && sample == PlannedSample(source, plan, offsets, n)
    && sample.offset + sample.size <= |out|
    && out[sample.offset..sample.offset + sample.size] == PlannedBytes(head, source, plan, n)
  }

  lemma PositionPlays(head: Buffer, parts: seq<Part>, movieScale: nat, k: nat, samples: seq<Sample>, n: nat)
    requires PartsFit(parts, movieScale) && k < |parts| && parts[k].Planned? && n < |parts[k].plan.samples| == |samples|
    requires Plannable(parts[k].source, parts[k].plan) && BeforeMoov(parts[k].source, parts[k].plan, |head|)
    requires var source, plan := parts[k].source, parts[k].plan;
             samples[n] == PlannedSample(source, plan, NewOffsets(source, plan, Start(parts, |head|, MoovSize(parts, movieScale, |head|), k)), n)
    ensures var source, plan := parts[k].source, parts[k].plan;
            Plays(head, source, plan, NewOffsets(source, plan, Start(parts, |head|, MoovSize(parts, movieScale, |head|), k)), Remuxed(head, parts, movieScale), samples, n)
  {
    hide PartsFit, Remuxed, MoovSize, Start, NewOffset, NewSize, NewDuration, Plannable, BeforeMoov, PlannedBytes;
    OffsetHoldsBytes(head, parts, movieScale, k, n);
  }

  /**
   Re-muxing and reading back gives the plan, position by position: the tables written
   for a track read as samples of the planned size, duration and composition offset,
   decoded at the sum of the durations before, and at each offset the file holds
   exactly the planned bytes.
   */
  lemma RemuxPlaysThePlan(head: Buffer, parts: seq<Part>, movieScale: nat, k: nat)
    requires Fits(parts, movieScale, |head|) && k < |parts| && parts[k].Planned?
    requires PartFits(parts[k].source, parts[k].plan, movieScale) && BeforeMoov(parts[k].source, parts[k].plan, |head|)
    ensures var source, plan := parts[k].source, parts[k].plan;
            var offsets := NewOffsets(source, plan, Start(parts, |head|, MoovSize(parts, movieScale, |head|), k));
            var tables := ReadTables(TablePayloads(source, plan, offsets));
            && tables.Some? && Samples(tables.value).Some? && |Samples(tables.value).value| == |plan.samples|
            && forall n | 0 <= n < |plan.samples| ::
                 Plays(head, source, plan, offsets, Remuxed(head, parts, movieScale), Samples(tables.value).value, n)
  {
    var source, plan := parts[k].source, parts[k].plan;
    var offsets := NewOffsets(source, plan, Start(parts, |head|, MoovSize(parts, movieScale, |head|), k));
    assert FitIn(offsets, 8) && PartsFit(parts, movieScale) && Plannable(source, plan);
    hide Fits, PartFits, PartsFit, ReadTables, TablePayloads, Remuxed, MoovSize, Start, FitIn, NewOffset, Samples, NewTables, Plays, PlannedSample, BeforeMoov, Plannable;
    TablesReadBack(source, plan, movieScale, offsets);
    SamplesArePlanned(source, plan, offsets);
    var samples := Samples(NewTables(source, plan, offsets)).value;
    forall n | 0 <= n < |plan.samples|
      ensures Plays(head, source, plan, offsets, Remuxed(head, parts, movieScale), samples, n)
    {
      PositionPlays(head, parts, movieScale, k, samples, n);
    }
  }

  /** The durations the plan asks for, added up over its first `n` positions. */
  function PlannedTime(source: Source, plan: Plan, n: nat): nat
    requires Plannable(source, plan) && n <= |plan.samples|
  {
    if n == 0 then 0
    else PlannedTime(source, plan, n - 1) + plan.retime(Samples(source.tables).value[plan.samples[n - 1]].duration, plan.samples[n - 1])
  }

  /**
   What a position's planned sample is, from the source's own samples: the duration the
   plan gives for the old one, decoded after those before it, with the plan's composition
   offset, and as long as the bytes it stands for.
   */
  lemma PlannedExact(head: Buffer, source: Source, plan: Plan, offsets: seq<nat>, n: nat)
    requires Plannable(source, plan) && BeforeMoov(source, plan, |head|) && n < |plan.samples| == |offsets|
    ensures var sample, i := PlannedSample(source, plan, offsets, n), plan.samples[n];
            && sample.duration == plan.retime(Samples(source.tables).value[i].duration, i)
            && sample.dts == PlannedTime(source, plan, n)
            && sample.cts == (if plan.cts.Some? then plan.cts.value[n] else 0)
            && sample.size == |PlannedBytes(head, source, plan, n)|
  {
    SumIsTime(source, plan, n);
    OldDuration(source.tables, plan.samples[n]);
    assert Samples(source.tables).value[plan.samples[n]].offset + Samples(source.tables).value[plan.samples[n]].size <= |head|;
    hide Samples, Deltas, Sum, PlannedTime;
  }

  lemma OldDuration(t: Tables, i: nat)
    requires Samples(t).Some? && i < |Samples(t).value| && i < |Deltas(t)|
    ensures Samples(t).value[i].duration == Deltas(t)[i]
  {
    hide Places, Deltas, CompositionOffsets, DtsOf;
  }

  lemma {:induction false} SumIsTime(source: Source, plan: Plan, n: nat)
    requires Plannable(source, plan) && n <= |plan.samples|
    ensures Sum(NewDurations(source, plan)[..n]) == PlannedTime(source, plan, n)
  {
    hide Samples, Deltas;
    if n > 0 {
      SumIsTime(source, plan, n - 1);
      OldDuration(source.tables, plan.samples[n - 1]);
      var durations := NewDurations(source, plan);
      assert durations[..n][..n - 1] == durations[..n - 1];
    }
  }
}

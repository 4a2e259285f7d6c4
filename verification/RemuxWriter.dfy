/** The two passes of `remux` (tools/src/remux.ts), with the list of replacements both passes fill. */
module RemuxWriter {
  import opened ByteStrings
  import opened SampleTables
  import opened TableBytes
  import opened Remux

  lemma NoReplacements(plan: Plan)
    ensures Replacements(plan, 0) == [] && |Concat(Replacements(plan, 0))| == 0
  {
  }

  lemma ReplacementsNext(source: Source, plan: Plan, start: nat, n: nat)
    requires Plannable(source, plan) && n < |plan.samples|
    ensures var i := plan.samples[n];
            if i in plan.replace then
              && Replacements(plan, n + 1) == Replacements(plan, n) + [plan.replace[i]]
              && |Concat(Replacements(plan, n + 1))| == |Concat(Replacements(plan, n))| + |plan.replace[i]|
              && NewOffset(source, plan, start, n) == start + |Concat(Replacements(plan, n))|
            else
              && Replacements(plan, n + 1) == Replacements(plan, n)
              && Samples(source.tables).Some? && i < |Samples(source.tables).value|
              && NewOffset(source, plan, start, n) == Samples(source.tables).value[i].offset
  {
    hide Samples, Concat;
    var i := plan.samples[n];
    if i in plan.replace {
      ConcatPush(Replacements(plan, n), plan.replace[i]);
    }
  }

  class Writer {
    /** The replaced samples met so far in this pass, in order. */
    var extra: seq<Buffer>

    constructor ()
      ensures extra == []
    {
      extra := [];
    }

    /** The offsets of one track's new samples; its replacements join the list. */
    method Layout(source: Source, plan: Plan, headLength: nat, moovSize: nat) returns (offsets: seq<nat>)
      requires Plannable(source, plan)
      modifies this
      ensures extra == old(extra) + Replacements(plan, |plan.samples|)
      ensures offsets == NewOffsets(source, plan, headLength + moovSize + 8 + |Concat(old(extra))|)
    {
      var placed := SamplesOf(source.tables);
      var samples := placed.value;
      var start := headLength + moovSize + 8 + |Concat(extra)|;
      var appended := start;
      offsets := [];
      NoReplacements(plan);
      hide Samples, Concat, Replacements, NewOffset, Plannable;
      for n := 0 to |plan.samples|
        invariant extra == old(extra) + Replacements(plan, n)
        invariant appended == start + |Concat(Replacements(plan, n))|
        invariant |offsets| == n && forall k | 0 <= k < n :: offsets[k] == NewOffset(source, plan, start, k)
      {
        var i := plan.samples[n];
        ReplacementsNext(source, plan, start, n);
        if i in plan.replace {
          extra := extra + [plan.replace[i]];
          offsets := offsets + [appended];
          appended := appended + |plan.replace[i]|;
        } else {
          offsets := offsets + [samples[i].offset];
        }
      }
    }

    /** The new `stbl` of one track. */
    method TablesFor(source: Source, plan: Plan, offsets: seq<nat>) returns (stbl: Buffer)
      requires Plannable(source, plan) && Int32s(plan.cts)
      ensures stbl == StblBytes(source, plan, offsets)
    {
      hide Fields, FlatRuns, CttsBytes, Samples, NewDuration, NewSize, BigEndian, RunsOf;
      var runs := CollectRuns(NewDurations(source, plan));
      var synced := CollectSynced(source, plan);
      var stts := Box(STTS, Counted(|runs|, FlatRuns(runs), 4));
      var ctts := if plan.cts.Some? then Box(CTTS, CttsBytes(plan.cts.value)) else [];
      var stss := if source.sync.Some? || plan.syncAll then Box(STSS, Counted(|synced|, synced, 4)) else [];
      var sizes := NewSizes(source, plan);
      var stsz := Box(STSZ, VERSION_0 + U32(0) + U32(|sizes|) + Fields(sizes, 4));
      var stsc := Box(STSC, Counted(1, [1, 1, 1], 4));
      var co64 := Box(CO64, Counted(|offsets|, offsets, 8));
      stbl := Box(STBL, source.around.stsd + stts + ctts + stss + stsz + stsc + co64);
    }

    method CollectSynced(source: Source, plan: Plan) returns (synced: seq<nat>)
      ensures synced == Synced(source, plan, |plan.samples|)
    {
      synced := [];
      for n := 0 to |plan.samples|
        invariant synced == Synced(source, plan, n)
      {
        if plan.syncAll || source.sync.None? || plan.samples[n] in source.sync.value {
          synced := synced + [n + 1];
        }
      }
    }

    /** One track rewritten for a `moov` of `moovSize` bytes. */
    method RebuiltTrak(source: Source, plan: Plan, movieScale: nat, headLength: nat, moovSize: nat, ghost start: nat) returns (trak: Buffer)
      requires PartFits(source, plan, movieScale) && start == headLength + moovSize + 8 + |Concat(extra)|
      modifies this
      ensures extra == old(extra) + Replacements(plan, |plan.samples|)
      ensures trak == TrakBytes(source, plan, movieScale, NewOffsets(source, plan, start))
    {
      hide Plannable, StblBytes, NewOffset, EditDuration, ElstBytes, BigEndian, Concat, Replacements, Int32s;
      var offsets := Layout(source, plan, headLength, moovSize);
      var stbl := TablesFor(source, plan, offsets);
      var a := source.around;
      var edts := if plan.delay > 0 then ElstBytes(plan.delay, EditDuration(source, plan, movieScale)) else [];
      trak := Box(TRAK, a.trakBefore + edts + Box(MDIA, a.mdiaBefore + Box(MINF, a.minfBefore + stbl + a.minfAfter) + a.mdiaAfter) + a.trakAfter);
    }

    /** The next child of `moov`, copied or rewritten. */
    method RebuiltPart(parts: seq<Part>, movieScale: nat, headLength: nat, moovSize: nat, k: nat) returns (bytes: Buffer)
      requires PartsFit(parts, movieScale) && k < |parts| && extra == Extra(parts, k)
      modifies this
      ensures extra == Extra(parts, k + 1)
      ensures bytes == PartBytes(parts, movieScale, headLength, moovSize, k)
    {
      hide TrakBytes, NewOffsets, Replacements, Concat;
      match parts[k] {
        case Kept(kept) => bytes := kept;
        case Planned(source, plan) =>
          assert PartFits(source, plan, movieScale);
          hide PartFits, PartsFit;
          bytes := RebuiltTrak(source, plan, movieScale, headLength, moovSize, Start(parts, headLength, moovSize, k));
      }
    }

    /** One pass: the list is emptied and filled again. */
    method Build(parts: seq<Part>, movieScale: nat, headLength: nat, moovSize: nat) returns (moov: Buffer)
      requires PartsFit(parts, movieScale)
      modifies this
      ensures extra == Extra(parts, |parts|)
      ensures moov == Moov(parts, movieScale, headLength, moovSize)
    {
      extra := [];
      var payload: Buffer := [];
      for k := 0 to |parts|
        invariant extra == Extra(parts, k)
        invariant payload == MoovPayload(parts, movieScale, headLength, moovSize, k)
      {
        hide PartBytes, Replacements, PartsFit;
        var bytes := RebuiltPart(parts, movieScale, headLength, moovSize, k);
        payload := payload + bytes;
      }
      moov := Box(MOOV, payload);
    }

    /** Two passes: the first learns the size of `moov`, the second writes the offsets. None where a field does not fit. */
    method Remux(head: Buffer, parts: seq<Part>, movieScale: nat) returns (out: Option<Buffer>)
      modifies this
      ensures out == if Fits(parts, movieScale, |head|) then Some(Remuxed(head, parts, movieScale)) else None
    {
      if !Fits(parts, movieScale, |head|) {
        return None;
      }
      hide PartsFit, Moov, Extra, Concat, BigEndian;
      var sized := Build(parts, movieScale, |head|, 0);
      var written := Build(parts, movieScale, |head|, |sized|);
      MoovSizeFixed(parts, movieScale, |head|, 0, |sized|);
      assert |written| == |sized|;
      var tail := if |extra| > 0 then Box(MDAT, Concat(extra)) else [];
      out := Some(head + written + tail);
    }
  }
}

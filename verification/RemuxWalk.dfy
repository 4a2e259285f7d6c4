/**
 The re-muxed file, walked box by box (tools/src/remux.ts, tools/src/container.ts): the
 reader comes down through `moov`, `trak`, `mdia` and `minf` to the very tables that were
 written, and reads the edit list that was.
 */
module RemuxWalk {
  import opened ByteStrings
  import opened SampleTables
  import opened TableBytes
  import opened BoxWalk
  import opened EditLists
  import opened Remux

  /** "stsd" */
  const STSD: Buffer := [0x73, 0x74, 0x73, 0x64]

  lemma BoxIsOne(name: Buffer, payload: Buffer)
    requires |name| == 4 && 8 + |payload| < 0x1_0000_0000
    ensures var b := Box(name, payload); OneBox(b) && NameOf(b) == name && HeaderLength(b) == 8
  {
    Widths();
    ReadWritten(8 + |payload|, 4);
    hide BigEndian, ReadBigEndian, Pow256;
    assert Box(name, payload)[..4] == U32(8 + |payload|);
  }

  /** A box that was written from boxes holds them. */
  lemma WrittenHolds(file: Buffer, box: FoundBox, name: Buffer, parts: seq<Buffer>)
    requires |name| == 4 && |Box(name, Concat(parts))| < 0x1_0000_0000 && AreBoxes(parts) && Holds(file, box, Box(name, Concat(parts)))
    ensures HoldsBoxes(file, box, parts)
  {
    BoxIsOne(name, Concat(parts));
    hide BigEndian, OneBox, HeaderLength, NameOf, Holds, Concat;
    var header := U32(8 + |Concat(parts)|) + name;
    assert Box(name, Concat(parts)) == header + Concat(parts);
    HeldBoxes(file, box, header, parts);
  }

  /** And one whose payload is no list of boxes holds that. */
  lemma WrittenHeld(file: Buffer, box: FoundBox, name: Buffer, payload: Buffer)
    requires |name| == 4 && |Box(name, payload)| < 0x1_0000_0000 && Holds(file, box, Box(name, payload))
    ensures Held(file, box) == payload && box.payload + |payload| == box.end <= |file|
  {
    BoxIsOne(name, payload);
    hide BigEndian, OneBox, HeaderLength, NameOf;
    var b := Box(name, payload);
    Inside(file, box.start, b, 8, |b|);
    assert b[8..] == payload;
  }

  // ---- the tables ----

  /** The payload of the first child of a name. */
  function ChildPayload(file: Buffer, box: FoundBox, name: Buffer): Option<Buffer>
    requires box.end <= |file|
  {
    var child := Child(file, box, name);
    if child.None? then None else Some(Held(file, child.value))
  }

  /** The tables of an `stbl` with 64-bit chunk offsets, as `samplesOf` finds them; none where a required one is missing. */
  function PayloadsOf(file: Buffer, stbl: FoundBox): Option<Payloads>
    requires stbl.end <= |file|
  {
    var stts, stsz, stsc, co64 := ChildPayload(file, stbl, STTS), ChildPayload(file, stbl, STSZ), ChildPayload(file, stbl, STSC), ChildPayload(file, stbl, CO64);
    if stts.None? || stsz.None? || stsc.None? || co64.None? then None
    else Some(Payloads(stts.value, ChildPayload(file, stbl, CTTS), stsz.value, stsc.value, co64.value))
  }

  function StblParts(source: Source, plan: Plan, offsets: seq<nat>): seq<Buffer>
    requires Plannable(source, plan) && Int32s(plan.cts)
  {
    var p := TablePayloads(source, plan, offsets);
    var synced := Synced(source, plan, |plan.samples|);
    [source.around.stsd, Box(STTS, p.stts)]
    + (if p.ctts.Some? then [Box(CTTS, p.ctts.value)] else [])
    + (if source.sync.Some? || plan.syncAll then [Box(STSS, Counted(|synced|, synced, 4))] else [])
    + [Box(STSZ, p.stsz), Box(STSC, p.stsc), Box(CO64, p.co64)]
  }

  lemma ConcatTwo(a: Buffer, b: Buffer)
    ensures Concat([a, b]) == a + b
  {
    ConcatOne(b);
    assert [a, b][1..] == [b];
  }

  lemma ConcatThree(a: Buffer, b: Buffer, c: Buffer)
    ensures Concat([a, b, c]) == a + b + c
  {
    ConcatTwo(b, c);
    assert [a, b, c][1..] == [b, c];
  }

  lemma ConcatOne(a: Buffer)
    ensures Concat([a]) == a && Concat<Byte>([]) == []
  {
    assert [a][1..] == [];
  }

  lemma StblIsParts(source: Source, plan: Plan, offsets: seq<nat>)
    requires Plannable(source, plan) && Int32s(plan.cts)
    ensures StblBytes(source, plan, offsets) == Box(STBL, Concat(StblParts(source, plan, offsets)))
  {
    hide Box, Counted, TablePayloads, Synced, Concat, Plannable;
    var p := TablePayloads(source, plan, offsets);
    var synced := Synced(source, plan, |plan.samples|);
    var a := [source.around.stsd, Box(STTS, p.stts)];
    var b := if p.ctts.Some? then [Box(CTTS, p.ctts.value)] else [];
    var c := if source.sync.Some? || plan.syncAll then [Box(STSS, Counted(|synced|, synced, 4))] else [];
    var d := [Box(STSZ, p.stsz), Box(STSC, p.stsc), Box(CO64, p.co64)];
    ConcatTwo(source.around.stsd, Box(STTS, p.stts));
    ConcatThree(Box(STSZ, p.stsz), Box(STSC, p.stsc), Box(CO64, p.co64));
    if b != [] {
      ConcatOne(b[0]);
    }
    if c != [] {
      ConcatOne(c[0]);
    }
    ConcatOne([]);
    ConcatAppend(a + b + c, d);
    ConcatAppend(a + b, c);
    ConcatAppend(a, b);
    Regroup(source.around.stsd + Box(STTS, p.stts) + Concat(b) + Concat(c), Box(STSZ, p.stsz), Box(STSC, p.stsc), Box(CO64, p.co64));
  }

  lemma Regroup(a: Buffer, b: Buffer, c: Buffer, d: Buffer)
    ensures a + b + c + d == a + (b + c + d)
  {
  }

  function StblNames(composed: bool, synced: bool): seq<Buffer> {
    [STSD, STTS] + (if composed then [CTTS] else []) + (if synced then [STSS] else []) + [STSZ, STSC, CO64]
  }

  /** No name stands twice among them. */
  lemma NamesDiffer(composed: bool, synced: bool, i: nat, j: nat)
    requires i < j < |StblNames(composed, synced)|
    ensures StblNames(composed, synced)[i] != StblNames(composed, synced)[j]
  {
    assert STSD[3] == 0x64 && STTS[2] == 0x74 && CTTS[0] == 0x63 && STSS[3] == 0x73 && STSZ[3] == 0x7a && STSC[3] == 0x63 && CO64[1] == 0x6f;
    assert STSD[0] == 0x73 && STTS[0] == 0x73 && CTTS[1] == 0x74 && STSS[0] == 0x73 && STSZ[0] == 0x73 && STSC[0] == 0x73 && CO64[0] == 0x63;
    assert STSD[2] == 0x73 && STSS[2] == 0x73 && STSZ[2] == 0x73 && STSC[2] == 0x73;
  }

  lemma PartIsShorter(parts: seq<Buffer>, k: nat)
    requires k < |parts|
    ensures |parts[k]| <= |Concat(parts)|
  {
    PartAt(Concat(parts), 0, parts, k);
  }

  lemma StblPartsAre(source: Source, plan: Plan, offsets: seq<nat>)
    requires Plannable(source, plan) && Int32s(plan.cts)
    requires |StblBytes(source, plan, offsets)| < 0x1_0000_0000 && OneBox(source.around.stsd) && NameOf(source.around.stsd) == STSD
    ensures var parts, p := StblParts(source, plan, offsets), TablePayloads(source, plan, offsets);
            var names := StblNames(p.ctts.Some?, source.sync.Some? || plan.syncAll);
            && AreBoxes(parts) && |parts| == |names| && forall i | 0 <= i < |parts| :: NameOf(parts[i]) == names[i]
  {
    StblIsParts(source, plan, offsets);
    hide StblBytes, StblParts, TablePayloads, StblNames, Synced, Plannable, OneBox, NameOf, Concat;
    var parts, p := StblParts(source, plan, offsets), TablePayloads(source, plan, offsets);
    var names := StblNames(p.ctts.Some?, source.sync.Some? || plan.syncAll);
    StblPartsNamed(source, plan, offsets);
    forall i | 0 <= i < |parts|
      ensures OneBox(parts[i]) && NameOf(parts[i]) == names[i]
    {
      PartIsShorter(parts, i);
      if i > 0 {
        PartIsBox(parts[i], names[i]);
      }
    }
  }

  lemma StblPartsNamed(source: Source, plan: Plan, offsets: seq<nat>)
    requires Plannable(source, plan) && Int32s(plan.cts)
    ensures var parts, p := StblParts(source, plan, offsets), TablePayloads(source, plan, offsets);
            var names := StblNames(p.ctts.Some?, source.sync.Some? || plan.syncAll);
            && |parts| == |names| && parts[0] == source.around.stsd && names[0] == STSD
            && forall i | 0 < i < |parts| :: IsNamed(parts[i], names[i])
  {
    hide TablePayloads, Counted, Synced, Plannable, Box, IsNamed;
    var p := TablePayloads(source, plan, offsets);
    var synced := Synced(source, plan, |plan.samples|);
    BoxIsNamed(STTS, p.stts);
    if p.ctts.Some? {
      BoxIsNamed(CTTS, p.ctts.value);
    }
    BoxIsNamed(STSS, Counted(|synced|, synced, 4));
    BoxIsNamed(STSZ, p.stsz);
    BoxIsNamed(STSC, p.stsc);
    BoxIsNamed(CO64, p.co64);
  }

  predicate IsNamed(part: Buffer, name: Buffer) {
    |name| == 4 && |part| >= 8 && part == Box(name, part[8..])
  }

  lemma BoxIsNamed(name: Buffer, payload: Buffer)
    requires |name| == 4
    ensures IsNamed(Box(name, payload), name)
  {
    hide BigEndian;
    assert Box(name, payload)[8..] == payload;
  }

  lemma PartIsBox(part: Buffer, name: Buffer)
    requires IsNamed(part, name) && |part| < 0x1_0000_0000
    ensures OneBox(part) && NameOf(part) == name
  {
    BoxIsOne(name, part[8..]);
  }

  lemma ChildPayloadIs(file: Buffer, box: FoundBox, parts: seq<Buffer>, k: nat, name: Buffer, payload: Buffer)
    requires HoldsBoxes(file, box, parts) && k < |parts| && |name| == 4 && parts[k] == Box(name, payload)
    requires |parts[k]| < 0x1_0000_0000 && forall i | 0 <= i < k :: NameOf(parts[i]) != name
    ensures ChildPayload(file, box, name) == Some(payload)
  {
    BoxIsOne(name, payload);
    hide Box, OneBox, NameOf, HeaderLength, HoldsBoxes, Holds, Child, Held;
    ChildIs(file, box, parts, k);
    WrittenHeld(file, Child(file, box, name).value, name, payload);
  }

  /** The box found holds the `stbl` written, and what is copied into it is its `stsd`. */
  predicate StblHeld(file: Buffer, stbl: FoundBox, source: Source, plan: Plan, offsets: seq<nat>)
    requires Plannable(source, plan) && Int32s(plan.cts)
  {
    && |StblBytes(source, plan, offsets)| < 0x1_0000_0000 && OneBox(source.around.stsd) && NameOf(source.around.stsd) == STSD
    && stbl.end <= |file| && Holds(file, stbl, StblBytes(source, plan, offsets))
  }

  lemma TableAt(file: Buffer, stbl: FoundBox, source: Source, plan: Plan, offsets: seq<nat>, k: nat, name: Buffer, payload: Buffer)
    requires Plannable(source, plan) && Int32s(plan.cts)
    requires stbl.end <= |file| && StblHeld(file, stbl, source, plan, offsets)
    requires TableIsAt(source, plan, offsets, k, name, payload)
    ensures ChildPayload(file, stbl, name) == Some(payload)
  {
    StblPartsAre(source, plan, offsets);
    StblIsParts(source, plan, offsets);
    hide StblBytes, StblParts, TablePayloads, StblNames, Synced, Plannable, OneBox, NameOf, Concat, Box, Holds, HoldsBoxes, ChildPayload;
    var parts := StblParts(source, plan, offsets);
    var composed, synced := TablePayloads(source, plan, offsets).ctts.Some?, source.sync.Some? || plan.syncAll;
    BoxLength(STBL, Concat(parts));
    WrittenHolds(file, stbl, STBL, parts);
    PartIsShorter(parts, k);
    forall i | 0 <= i < k
      ensures NameOf(parts[i]) != name
    {
      NamesDiffer(composed, synced, i, k);
    }
    ChildPayloadIs(file, stbl, parts, k, name, payload);
  }

  lemma BoxLength(name: Buffer, payload: Buffer)
    ensures |Box(name, payload)| == 4 + |name| + |payload|
  {
  }

  /** The tables found are the tables written. */
  lemma TablesFound(file: Buffer, stbl: FoundBox, source: Source, plan: Plan, offsets: seq<nat>)
    requires Plannable(source, plan) && Int32s(plan.cts)
    requires stbl.end <= |file| && StblHeld(file, stbl, source, plan, offsets)
    ensures PayloadsOf(file, stbl) == Some(TablePayloads(source, plan, offsets))
  {
    hide *;
    TableOrder(source, plan, offsets);
    var p := TablePayloads(source, plan, offsets);
    var n := |StblParts(source, plan, offsets)|;
    TableAt(file, stbl, source, plan, offsets, 1, STTS, p.stts);
    TableAt(file, stbl, source, plan, offsets, n - 3, STSZ, p.stsz);
    TableAt(file, stbl, source, plan, offsets, n - 2, STSC, p.stsc);
    TableAt(file, stbl, source, plan, offsets, n - 1, CO64, p.co64);
    if p.ctts.Some? {
      TableAt(file, stbl, source, plan, offsets, 2, CTTS, p.ctts.value);
    } else {
      NoComposition(file, stbl, source, plan, offsets);
    }
    PayloadsAre(file, stbl, p);
  }

  lemma PayloadsAre(file: Buffer, stbl: FoundBox, p: Payloads)
    requires stbl.end <= |file|
    requires ChildPayload(file, stbl, STTS) == Some(p.stts) && ChildPayload(file, stbl, CTTS) == p.ctts && ChildPayload(file, stbl, STSZ) == Some(p.stsz)
    requires ChildPayload(file, stbl, STSC) == Some(p.stsc) && ChildPayload(file, stbl, CO64) == Some(p.co64)
    ensures PayloadsOf(file, stbl) == Some(p)
  {
    hide ChildPayload;
  }

  /** The sync table found lists, from 1, the positions whose samples are sync samples. */
  lemma SyncFound(file: Buffer, stbl: FoundBox, source: Source, plan: Plan, offsets: seq<nat>)
    requires Plannable(source, plan) && Int32s(plan.cts) && |plan.samples| < 0x1_0000_0000 && (source.sync.Some? || plan.syncAll)
    requires stbl.end <= |file| && StblHeld(file, stbl, source, plan, offsets)
    ensures var stss := ChildPayload(file, stbl, STSS);
            && stss.Some? && ReadCounted(stss.value, 1, 4).Some?
            && var listed := ReadCounted(stss.value, 1, 4).value;
            && (forall i, j | 0 <= i < j < |listed| :: listed[i] < listed[j])
            && forall n :: n in listed <==> 1 <= n <= |plan.samples| && (plan.syncAll || source.sync.None? || plan.samples[n - 1] in source.sync.value)
  {
    hide *;
    var synced := Synced(source, plan, |plan.samples|);
    TableOrder(source, plan, offsets);
    TableAt(file, stbl, source, plan, offsets, |StblParts(source, plan, offsets)| - 4, STSS, Counted(|synced|, synced, 4));
    SyncedExact(source, plan, |plan.samples|);
    SyncedFits(source, plan);
    CountedReadsBack(|synced|, synced, 1, 4);
  }

  lemma SyncedFits(source: Source, plan: Plan)
    requires |plan.samples| < 0x1_0000_0000
    ensures FitIn(Synced(source, plan, |plan.samples|), 4)
  {
    var synced := Synced(source, plan, |plan.samples|);
    SyncedExact(source, plan, |plan.samples|);
    Widths();
    hide Synced, Pow256;
    forall i | 0 <= i < |synced|
      ensures synced[i] < Pow256(4)
    {
      assert synced[i] in synced;
    }
  }

  lemma {:induction false} SyncedExact(source: Source, plan: Plan, n: nat)
    requires n <= |plan.samples|
    ensures var synced := Synced(source, plan, n);
            && |synced| <= n
            && (forall i, j | 0 <= i < j < |synced| :: synced[i] < synced[j])
            && forall k :: k in synced <==> 1 <= k <= n && (plan.syncAll || source.sync.None? || plan.samples[k - 1] in source.sync.value)
  {
    if n > 0 {
      SyncedExact(source, plan, n - 1);
      var before := Synced(source, plan, n - 1);
      forall i | 0 <= i < |before|
        ensures before[i] < n
      {
        assert before[i] in before;
      }
    }
  }

  /** Name and table at place `k` of the `stbl`. */
  predicate TableIsAt(source: Source, plan: Plan, offsets: seq<nat>, k: int, name: Buffer, payload: Buffer)
    requires Plannable(source, plan) && Int32s(plan.cts)
  {
    && 0 <= k < |StblParts(source, plan, offsets)| && StblParts(source, plan, offsets)[k] == Box(name, payload) && |name| == 4
    && k < |StblNames(TablePayloads(source, plan, offsets).ctts.Some?, source.sync.Some? || plan.syncAll)|
    && StblNames(TablePayloads(source, plan, offsets).ctts.Some?, source.sync.Some? || plan.syncAll)[k] == name
  }

  lemma TableOrder(source: Source, plan: Plan, offsets: seq<nat>)
    requires Plannable(source, plan) && Int32s(plan.cts)
    ensures var p, n, synced := TablePayloads(source, plan, offsets), |StblParts(source, plan, offsets)|, Synced(source, plan, |plan.samples|);
            && n >= 5 && TableIsAt(source, plan, offsets, 1, STTS, p.stts)
            && TableIsAt(source, plan, offsets, n - 3, STSZ, p.stsz) && TableIsAt(source, plan, offsets, n - 2, STSC, p.stsc) && TableIsAt(source, plan, offsets, n - 1, CO64, p.co64)
            && (p.ctts.Some? ==> TableIsAt(source, plan, offsets, 2, CTTS, p.ctts.value))
            && (source.sync.Some? || plan.syncAll ==> TableIsAt(source, plan, offsets, n - 4, STSS, Counted(|synced|, synced, 4)))
  {
    hide TablePayloads, Counted, Synced, Plannable, Box;
  }

  lemma NoComposition(file: Buffer, stbl: FoundBox, source: Source, plan: Plan, offsets: seq<nat>)
    requires Plannable(source, plan) && Int32s(plan.cts) && TablePayloads(source, plan, offsets).ctts.None?
    requires stbl.end <= |file| && StblHeld(file, stbl, source, plan, offsets)
    ensures ChildPayload(file, stbl, CTTS) == None
  {
    StblPartsAre(source, plan, offsets);
    StblIsParts(source, plan, offsets);
    hide StblBytes, StblParts, TablePayloads, Synced, Plannable, OneBox, NameOf, Concat, Box, Holds, HoldsBoxes;
    var parts := StblParts(source, plan, offsets);
    BoxLength(STBL, Concat(parts));
    WrittenHolds(file, stbl, STBL, parts);
    var names := StblNames(false, source.sync.Some? || plan.syncAll);
    forall i | 0 <= i < |parts|
      ensures NameOf(parts[i]) != CTTS
    {
      NoCtts(source.sync.Some? || plan.syncAll, i);
    }
    NoChild(file, stbl, parts, CTTS);
  }

  lemma NoCtts(synced: bool, i: nat)
    requires i < |StblNames(false, synced)|
    ensures StblNames(false, synced)[i] != CTTS
  {
    assert CTTS[0] == 0x63 && CTTS[1] == 0x74 && STSD[0] == 0x73 && STTS[0] == 0x73 && STSS[0] == 0x73 && STSZ[0] == 0x73 && STSC[0] == 0x73 && CO64[1] == 0x6f;
  }

  // ---- a track ----

  /** The boxes copied around the ones rewritten, one by one. */
  datatype Copied = Copied(trakBefore: seq<Buffer>, mdiaBefore: seq<Buffer>, minfBefore: seq<Buffer>, minfAfter: seq<Buffer>, mdiaAfter: seq<Buffer>, trakAfter: seq<Buffer>)

  predicate NoneNamed(parts: seq<Buffer>, name: Buffer) {
    forall i | 0 <= i < |parts| :: NameOf(parts[i]) != name
  }

  /** The copied bytes are these boxes: no edit list among them, and none named as one that is rewritten in front of it. */
  predicate Consists(a: Around, c: Copied) {
    && a.trakBefore == Concat(c.trakBefore) && a.mdiaBefore == Concat(c.mdiaBefore) && a.minfBefore == Concat(c.minfBefore)
    && a.minfAfter == Concat(c.minfAfter) && a.mdiaAfter == Concat(c.mdiaAfter) && a.trakAfter == Concat(c.trakAfter)
    && AreBoxes(c.trakBefore) && AreBoxes(c.mdiaBefore) && AreBoxes(c.minfBefore) && AreBoxes(c.minfAfter) && AreBoxes(c.mdiaAfter) && AreBoxes(c.trakAfter)
    && OneBox(a.stsd) && NameOf(a.stsd) == STSD
    && NoneNamed(c.trakBefore, MDIA) && NoneNamed(c.mdiaBefore, MINF) && NoneNamed(c.minfBefore, STBL)
    && NoneNamed(c.trakBefore, EDTS) && NoneNamed(c.trakAfter, EDTS)
  }

  /** One box between boxes: it is the first of its name. */
  lemma BetweenFound(file: Buffer, box: FoundBox, before: seq<Buffer>, part: Buffer, after: seq<Buffer>, name: Buffer)
    requires HoldsBoxes(file, box, before + [part] + after) && NameOf(part) == name && NoneNamed(before, name)
    ensures var child := Child(file, box, name); child.Some? && Holds(file, child.value, part)
  {
    hide OneBox, NameOf, HoldsBoxes, Holds, Child;
    var parts := before + [part] + after;
    assert parts[|before|] == part && forall i | 0 <= i < |before| :: parts[i] == before[i];
    ChildIs(file, box, parts, |before|);
  }

  lemma ConcatBetween(before: seq<Buffer>, part: Buffer, after: seq<Buffer>)
    ensures Concat(before + [part] + after) == Concat(before) + part + Concat(after)
  {
    ConcatAppend(before + [part], after);
    ConcatAppend(before, [part]);
    ConcatOne(part);
  }

  /** Down one level: a written box in a written box, found by its name. */
  lemma Descends(file: Buffer, box: FoundBox, name: Buffer, before: seq<Buffer>, inner: Buffer, innerName: Buffer, payload: Buffer, after: seq<Buffer>)
    requires |name| == 4 && |innerName| == 4 && inner == Box(innerName, payload)
    requires AreBoxes(before) && AreBoxes(after) && NoneNamed(before, innerName)
    requires Holds(file, box, Box(name, Concat(before) + inner + Concat(after))) && |Box(name, Concat(before) + inner + Concat(after))| < 0x1_0000_0000
    ensures var child := Child(file, box, innerName); child.Some? && Holds(file, child.value, inner)
    ensures |inner| < 0x1_0000_0000
  {
    ConcatBetween(before, inner, after);
    BoxLength(name, Concat(before) + inner + Concat(after));
    BoxIsOne(innerName, payload);
    hide Box, Holds, Child, Concat, OneBox, NameOf;
    var parts := before + [inner] + after;
    assert AreBoxes(parts);
    WrittenHolds(file, box, name, parts);
    BetweenFound(file, box, before, inner, after, innerName);
  }

  /** The `stbl` a reader comes down to. */
  function StblOf(file: Buffer, trak: FoundBox): (stbl: Option<FoundBox>)
    requires trak.end <= |file|
    ensures stbl.Some? ==> stbl.value.end <= |file|
  {
    var mdia := Child(file, trak, MDIA);
    if mdia.None? then None
    else
      var minf := Child(file, mdia.value, MINF);
      if minf.None? then None else Child(file, minf.value, STBL)
  }

  function MinfBox(source: Source, plan: Plan, offsets: seq<nat>): Buffer
    requires Plannable(source, plan) && Int32s(plan.cts)
  {
    Box(MINF, source.around.minfBefore + StblBytes(source, plan, offsets) + source.around.minfAfter)
  }

  function MdiaBox(source: Source, plan: Plan, offsets: seq<nat>): Buffer
    requires Plannable(source, plan) && Int32s(plan.cts)
  {
    Box(MDIA, source.around.mdiaBefore + MinfBox(source, plan, offsets) + source.around.mdiaAfter)
  }

  function EdtsParts(source: Source, plan: Plan, movieScale: nat): seq<Buffer>
    requires PartFits(source, plan, movieScale)
  {
    if plan.delay > 0 then [ElstBytes(plan.delay, EditDuration(source, plan, movieScale))] else []
  }

  lemma TrakIsParts(source: Source, plan: Plan, movieScale: nat, offsets: seq<nat>, c: Copied)
    requires PartFits(source, plan, movieScale) && Consists(source.around, c)
    ensures TrakBytes(source, plan, movieScale, offsets)
         == Box(TRAK, Concat(c.trakBefore + EdtsParts(source, plan, movieScale)) + MdiaBox(source, plan, offsets) + Concat(c.trakAfter))
  {
    ConcatAppend(c.trakBefore, EdtsParts(source, plan, movieScale));
    ConcatOne(if plan.delay > 0 then ElstBytes(plan.delay, EditDuration(source, plan, movieScale)) else []);
    hide Box, StblBytes, ElstBytes, EditDuration, Concat, Plannable, AreBoxes, NoneNamed;
  }

  lemma ElstIsOne(delay: nat, duration: nat)
    ensures var b := ElstBytes(delay, duration); OneBox(b) && NameOf(b) == EDTS
  {
    hide BigEndian;
    var elst := VERSION_0 + U32(2) + U32(delay) + [0xff, 0xff, 0xff, 0xff] + RATE_1 + U32(duration) + U32(0) + RATE_1;
    BoxIsOne(EDTS, Box(ELST, elst));
  }

  /** The reader comes down to the very `stbl` written. */
  lemma StblFound(file: Buffer, trak: FoundBox, source: Source, plan: Plan, movieScale: nat, offsets: seq<nat>, c: Copied)
    requires PartFits(source, plan, movieScale) && Consists(source.around, c)
    requires |TrakBytes(source, plan, movieScale, offsets)| < 0x1_0000_0000 && Holds(file, trak, TrakBytes(source, plan, movieScale, offsets))
    ensures StblOf(file, trak).Some? && Holds(file, StblOf(file, trak).value, StblBytes(source, plan, offsets))
    ensures |StblBytes(source, plan, offsets)| < 0x1_0000_0000
  {
    TrakIsParts(source, plan, movieScale, offsets, c);
    EdtsIsNoMdia(source, plan, movieScale, c);
    hide Box, TrakBytes, MinfBox, Concat, Plannable, Child, Holds, EdtsParts, PartFits;
    var mdia := MdiaBox(source, plan, offsets);
    Descends(file, trak, TRAK, c.trakBefore + EdtsParts(source, plan, movieScale), mdia, MDIA,
             source.around.mdiaBefore + MinfBox(source, plan, offsets) + source.around.mdiaAfter, c.trakAfter);
    hide MdiaBox;
    StblInMdia(file, Child(file, trak, MDIA).value, source, plan, offsets, c);
  }

  lemma StblInMdia(file: Buffer, mdia: FoundBox, source: Source, plan: Plan, offsets: seq<nat>, c: Copied)
    requires Plannable(source, plan) && Int32s(plan.cts) && Consists(source.around, c)
    requires |MdiaBox(source, plan, offsets)| < 0x1_0000_0000 && Holds(file, mdia, MdiaBox(source, plan, offsets))
    ensures mdia.end <= |file| && Child(file, mdia, MINF).Some?
    ensures var stbl := Child(file, Child(file, mdia, MINF).value, STBL);
            stbl.Some? && Holds(file, stbl.value, StblBytes(source, plan, offsets)) && |StblBytes(source, plan, offsets)| < 0x1_0000_0000
  {
    StblIsParts(source, plan, offsets);
    assert mdia.end <= |file|;
    hide Box, StblBytes, StblParts, Concat, Plannable, Child, Holds;
    var minf := MinfBox(source, plan, offsets);
    Descends(file, mdia, MDIA, c.mdiaBefore, minf, MINF, source.around.minfBefore + StblBytes(source, plan, offsets) + source.around.minfAfter, c.mdiaAfter);
    Descends(file, Child(file, mdia, MINF).value, MINF, c.minfBefore, StblBytes(source, plan, offsets), STBL,
             Concat(StblParts(source, plan, offsets)), c.minfAfter);
  }

  lemma EdtsIsNoMdia(source: Source, plan: Plan, movieScale: nat, c: Copied)
    requires PartFits(source, plan, movieScale) && Consists(source.around, c)
    ensures var before := c.trakBefore + EdtsParts(source, plan, movieScale); AreBoxes(before) && NoneNamed(before, MDIA)
  {
    hide OneBox, NameOf, Concat, ElstBytes, Plannable, EditDuration;
    assert EDTS[0] == 0x65 && MDIA[0] == 0x6d;
    if plan.delay > 0 {
      ElstIsOne(plan.delay, EditDuration(source, plan, movieScale));
    }
  }

  // ---- the edit list ----

  function ElstPayload(delay: nat, duration: nat): (p: Buffer)
    ensures |p| == 32
  {
    VERSION_0 + U32(2) + (U32(delay) + [0xff, 0xff, 0xff, 0xff] + RATE_1) + (U32(duration) + U32(0) + RATE_1)
  }

  lemma ElstIsPayload(delay: nat, duration: nat)
    ensures ElstBytes(delay, duration) == Box(EDTS, Box(ELST, ElstPayload(delay, duration)))
  {
    hide BigEndian, Box;
    assert ElstPayload(delay, duration) == VERSION_0 + U32(2) + U32(delay) + [0xff, 0xff, 0xff, 0xff] + RATE_1 + U32(duration) + U32(0) + RATE_1;
  }

  /** An entry of version 0 in the file reads as its three fields. */
  lemma EntryReads(file: Buffer, at: nat, duration: nat, time: Buffer)
    requires duration < 0x1_0000_0000 && |time| == 4 && at + 12 <= |file| && file[at..at + 12] == U32(duration) + time + RATE_1
    ensures TimesAt(file, 0, at) == Some((duration, Signed(ReadBigEndian(time), 4))) && RateAt(file, 0, at) == Some(1)
  {
    Widths();
    ReadWritten(duration, 4);
    var b := U32(duration) + time + RATE_1;
    BoxWalk.Inside(file, at, b, 0, 4);
    BoxWalk.Inside(file, at, b, 4, 8);
    BoxWalk.Inside(file, at, b, 8, 10);
    assert b[0..4] == U32(duration) && b[4..8] == time && b[8..10] == [0, 1];
    assert ReadBigEndian([0, 1]) == 1 by {
      assert [0, 1][..1] == [0] && [0][..0] == [];
    }
    hide BigEndian, ReadBigEndian, Pow256;
  }

  lemma MinusOne()
    ensures Signed(ReadBigEndian([0xff, 0xff, 0xff, 0xff]), 4) == -1 && Signed(ReadBigEndian(U32(0)), 4) == 0
  {
    Widths();
    ReadWritten(0, 4);
    ReadWritten(0xffff_ffff, 4);
    assert BigEndian(0xffff_ffff, 4) == [0xff, 0xff, 0xff, 0xff] by {
      assert BigEndian(0, 0) == [] && BigEndian(0xff, 1) == [0xff] && BigEndian(0xffff, 2) == [0xff, 0xff] && BigEndian(0xff_ffff, 3) == [0xff, 0xff, 0xff];
    }
  }

  /** The two entries written read as the delay and the media from its start. */
  lemma ElstReads(file: Buffer, base: nat, delay: nat, duration: nat, scale: nat)
    requires delay < 0x1_0000_0000 && duration < 0x1_0000_0000
    requires base + 32 <= |file| && file[base..base + 32] == ElstPayload(delay, duration)
    ensures file[base] == 0 && ReadBigEndian(file[base + 4..base + 8]) == 2
    ensures EditsFrom(file, 0, base + 8, 0, 2, 0, scale) == Some(Edits(delay, scale, 0, Some(OneEdit(0, duration)), None))
  {
    ElstPlaces(file, base, delay, duration);
    MinusOne();
    hide BigEndian, ReadBigEndian, Pow256, Signed, U32, ElstPayload;
    EntryReads(file, base + 8, delay, [0xff, 0xff, 0xff, 0xff]);
    EntryReads(file, base + 20, duration, U32(0));
    var entries := [EditEntry(delay, -1, 1), EditEntry(duration, 0, 1)];
    hide TimesAt, RateAt;
    assert Lists(file, 0, base + 8, entries);
    TwoEntries(delay, duration);
    EditsExact(file, 0, base + 8, entries, 1, scale);
  }

  lemma TwoEntries(delay: nat, duration: nat)
    ensures Delay([EditEntry(delay, -1, 1), EditEntry(duration, 0, 1)], 1) == delay
  {
    assert Delay([EditEntry(delay, -1, 1), EditEntry(duration, 0, 1)], 0) == 0;
  }

  lemma ElstPlaces(file: Buffer, base: nat, delay: nat, duration: nat)
    requires base + 32 <= |file| && file[base..base + 32] == ElstPayload(delay, duration)
    ensures file[base] == 0 && ReadBigEndian(file[base + 4..base + 8]) == 2
    ensures file[base + 8..base + 20] == U32(delay) + [0xff, 0xff, 0xff, 0xff] + RATE_1
    ensures file[base + 20..base + 32] == U32(duration) + U32(0) + RATE_1
  {
    Widths();
    ReadWritten(2, 4);
    hide BigEndian, ReadBigEndian, Pow256;
    var p := ElstPayload(delay, duration);
    BoxWalk.Inside(file, base, p, 0, 1);
    BoxWalk.Inside(file, base, p, 4, 8);
    BoxWalk.Inside(file, base, p, 8, 20);
    BoxWalk.Inside(file, base, p, 20, 32);
    assert p[0] == VERSION_0[0] && p[0..1] == [p[0]] && file[base] == file[base..base + 1][0];
    assert p[4..8] == U32(2);
    assert p[8..20] == U32(delay) + [0xff, 0xff, 0xff, 0xff] + RATE_1;
    assert p[20..32] == U32(duration) + U32(0) + RATE_1;
  }

  /** What the reader makes of a rewritten track's edit list. */
  function PlannedEdits(source: Source, plan: Plan, movieScale: nat): Edits
    requires PartFits(source, plan, movieScale)
  {
    if plan.delay > 0 then Edits(plan.delay, movieScale, 0, Some(OneEdit(0, EditDuration(source, plan, movieScale))), None) else NO_EDITS
  }

  lemma EditsFound(file: Buffer, trak: FoundBox, source: Source, plan: Plan, movieScale: nat, offsets: seq<nat>, c: Copied)
    requires PartFits(source, plan, movieScale) && Consists(source.around, c)
    requires |TrakBytes(source, plan, movieScale, offsets)| < 0x1_0000_0000 && Holds(file, trak, TrakBytes(source, plan, movieScale, offsets))
    ensures EditsOf(file, trak, movieScale) == Some(PlannedEdits(source, plan, movieScale))
  {
    CopiedHasNoEdits(source.around, c);
    if plan.delay > 0 {
      DelayFits(source, plan, movieScale);
    }
    hide TrakBytes, MdiaBox, Concat, HoldsBoxes, Holds, NameOf, OneBox, EditsOf, Plannable, AreBoxes, EditDuration, ElstBytes, Consists, PartFits, NoneNamed;
    TrakBoxes(file, trak, source, plan, movieScale, offsets, c);
    var mdia := MdiaBox(source, plan, offsets);
    if plan.delay > 0 {
      var elst := ElstBytes(plan.delay, EditDuration(source, plan, movieScale));
      RegroupParts(c.trakBefore + [elst], [mdia], c.trakAfter);
      DelayedEdits(file, trak, c.trakBefore, plan.delay, EditDuration(source, plan, movieScale), [mdia] + c.trakAfter, movieScale);
    } else {
      NoEdts(c, mdia);
      assert c.trakBefore + [] == c.trakBefore;
      NoEditList(file, trak, c.trakBefore + [mdia] + c.trakAfter, movieScale);
    }
  }

  lemma RegroupParts(a: seq<Buffer>, b: seq<Buffer>, c: seq<Buffer>)
    ensures a + b + c == a + (b + c)
  {
  }

  lemma CopiedHasNoEdits(a: Around, c: Copied)
    requires Consists(a, c)
    ensures NoneNamed(c.trakBefore, EDTS) && NoneNamed(c.trakAfter, EDTS)
  {
  }

  lemma DelayFits(source: Source, plan: Plan, movieScale: nat)
    requires PartFits(source, plan, movieScale) && plan.delay > 0
    ensures plan.delay < 0x1_0000_0000 && MediaScale(source, plan) > 0 && EditDuration(source, plan, movieScale) < 0x1_0000_0000
  {
  }

  lemma DelayedEdits(file: Buffer, trak: FoundBox, before: seq<Buffer>, delay: nat, duration: nat, after: seq<Buffer>, scale: nat)
    requires delay < 0x1_0000_0000 && duration < 0x1_0000_0000
    requires HoldsBoxes(file, trak, before + [ElstBytes(delay, duration)] + after) && NoneNamed(before, EDTS)
    ensures EditsOf(file, trak, scale) == Some(Edits(delay, scale, 0, Some(OneEdit(0, duration)), None))
  {
    ElstIsOne(delay, duration);
    assert trak.end <= |file|;
    hide HoldsBoxes, Holds, Children, Child, ElstBytes, NameOf, OneBox, EditsFrom, ReadBigEndian;
    BetweenFound(file, trak, before, ElstBytes(delay, duration), after, EDTS);
    ChildMeansChildren(file, trak, EDTS);
    EdtsReads(file, Child(file, trak, EDTS).value, delay, duration, scale);
  }

  lemma NoEditList(file: Buffer, trak: FoundBox, parts: seq<Buffer>, scale: nat)
    requires HoldsBoxes(file, trak, parts) && NoneNamed(parts, EDTS)
    ensures EditsOf(file, trak, scale) == Some(NO_EDITS)
  {
    assert trak.end <= |file|;
    hide HoldsBoxes, Children, Child, NameOf, OneBox, EditsFrom, Laid;
    NoChild(file, trak, parts, EDTS);
    ChildrenAre(file, trak, parts);
  }

  lemma NoEdts(c: Copied, mdia: Buffer)
    requires NoneNamed(c.trakBefore, EDTS) && NoneNamed(c.trakAfter, EDTS) && NameOf(mdia) == MDIA
    ensures NoneNamed(c.trakBefore + [mdia] + c.trakAfter, EDTS)
  {
    hide NameOf;
    assert EDTS[0] == 0x65 && MDIA[0] == 0x6d;
  }

  lemma ChildMeansChildren(file: Buffer, box: FoundBox, name: Buffer)
    requires box.end <= |file| && Child(file, box, name).Some?
    ensures Children(file, box).Some?
  {
  }

  /** The boxes a rewritten track holds. */
  lemma TrakBoxes(file: Buffer, trak: FoundBox, source: Source, plan: Plan, movieScale: nat, offsets: seq<nat>, c: Copied)
    requires PartFits(source, plan, movieScale) && Consists(source.around, c)
    requires |TrakBytes(source, plan, movieScale, offsets)| < 0x1_0000_0000 && Holds(file, trak, TrakBytes(source, plan, movieScale, offsets))
    ensures var mdia := MdiaBox(source, plan, offsets);
            && OneBox(mdia) && NameOf(mdia) == MDIA
            && HoldsBoxes(file, trak, c.trakBefore + EdtsParts(source, plan, movieScale) + [mdia] + c.trakAfter)
  {
    TrakIsParts(source, plan, movieScale, offsets, c);
    EdtsIsNoMdia(source, plan, movieScale, c);
    AfterAreBoxes(source.around, c);
    hide TrakBytes, MdiaBox, EdtsParts, Concat, Plannable, Holds, HoldsBoxes, NameOf, OneBox, Box, Consists, PartFits, AreBoxes;
    var mdia, before := MdiaBox(source, plan, offsets), c.trakBefore + EdtsParts(source, plan, movieScale);
    ConcatBetween(before, mdia, c.trakAfter);
    BoxLength(TRAK, Concat(before) + mdia + Concat(c.trakAfter));
    MdiaIsOne(source, plan, offsets);
    BoxesBetween(before, mdia, c.trakAfter);
    WrittenHolds(file, trak, TRAK, before + [mdia] + c.trakAfter);
  }

  lemma AfterAreBoxes(a: Around, c: Copied)
    requires Consists(a, c)
    ensures AreBoxes(c.trakAfter)
  {
  }

  lemma MdiaIsOne(source: Source, plan: Plan, offsets: seq<nat>)
    requires Plannable(source, plan) && Int32s(plan.cts) && |MdiaBox(source, plan, offsets)| < 0x1_0000_0000
    ensures OneBox(MdiaBox(source, plan, offsets)) && NameOf(MdiaBox(source, plan, offsets)) == MDIA
  {
    hide MinfBox;
    BoxIsOne(MDIA, source.around.mdiaBefore + MinfBox(source, plan, offsets) + source.around.mdiaAfter);
  }

  lemma BoxesBetween(before: seq<Buffer>, part: Buffer, after: seq<Buffer>)
    requires AreBoxes(before) && OneBox(part) && AreBoxes(after)
    ensures AreBoxes(before + [part] + after)
  {
    hide OneBox;
  }

  lemma EdtsReads(file: Buffer, edts: FoundBox, delay: nat, duration: nat, scale: nat)
    requires delay < 0x1_0000_0000 && duration < 0x1_0000_0000 && Holds(file, edts, ElstBytes(delay, duration))
    ensures Children(file, edts).Some? && Child(file, edts, ELST).Some?
    ensures var base := Child(file, edts, ELST).value.payload;
            && base + 8 <= |file|
            && EditsFrom(file, file[base], base + 8, 0, ReadBigEndian(file[base + 4..base + 8]), 0, scale) == Some(Edits(delay, scale, 0, Some(OneEdit(0, duration)), None))
  {
    ElstIsPayload(delay, duration);
    var payload := ElstPayload(delay, duration);
    BoxIsOne(ELST, payload);
    var elst := Box(ELST, payload);
    BoxLength(ELST, payload);
    BoxLength(EDTS, elst);
    ConcatOne(elst);
    hide Box, ElstBytes, ElstPayload, Concat, HoldsBoxes, Children, Child, NameOf, OneBox, EditsFrom, ReadBigEndian, HeaderLength, Holds;
    WrittenHolds(file, edts, EDTS, [elst]);
    assert [] + [elst] + [] == [elst];
    BetweenFound(file, edts, [], elst, [], ELST);
    ChildMeansChildren(file, edts, ELST);
    HeldIs(file, Child(file, edts, ELST).value, payload);
    ElstReads(file, Child(file, edts, ELST).value.payload, delay, duration, scale);
  }

  lemma HeldIs(file: Buffer, box: FoundBox, payload: Buffer)
    requires Holds(file, box, Box(ELST, payload)) && |payload| == 32
    ensures box.payload + 32 <= |file| && file[box.payload..box.payload + 32] == payload
  {
    BoxLength(ELST, payload);
    WrittenHeld(file, box, ELST, payload);
    hide Box, Holds, HeaderLength;
  }

  // ---- the whole file ----

  /** The file as a box of its top-level boxes. */
  function Whole(file: Buffer): FoundBox {
    FoundBox([], 0, 0, |file|)
  }

  /** The file's own `moov`; none where it has none, or the reader throws. */
  function MoovOf(file: Buffer): (moov: Option<FoundBox>)
    ensures moov.Some? ==> moov.value.end <= |file|
  {
    Child(file, Whole(file), MOOV)
  }

  /** The head is complete boxes, none of them a `moov`, and every child of `moov` that is copied is one box. */
  predicate Boxed(head: Buffer, heads: seq<Buffer>, parts: seq<Part>) {
    && head == Concat(heads) && AreBoxes(heads) && NoneNamed(heads, MOOV)
    && forall k | 0 <= k < |parts| && parts[k].Kept? :: OneBox(parts[k].bytes)
  }

  function MoovBoxes(parts: seq<Part>, movieScale: nat, headLength: nat, moovSize: nat, k: nat): seq<Buffer>
    requires k <= |parts| && PartsFit(parts, movieScale)
  {
    seq(k, i requires 0 <= i < k => PartBytes(parts, movieScale, headLength, moovSize, i))
  }

  lemma {:induction false} PayloadIsBoxes(parts: seq<Part>, movieScale: nat, headLength: nat, moovSize: nat, k: nat)
    requires k <= |parts| && PartsFit(parts, movieScale)
    ensures MoovPayload(parts, movieScale, headLength, moovSize, k) == Concat(MoovBoxes(parts, movieScale, headLength, moovSize, k))
  {
    hide PartBytes, PartsFit;
    if k == 0 {
      assert MoovBoxes(parts, movieScale, headLength, moovSize, 0) == [];
    } else {
      PayloadIsBoxes(parts, movieScale, headLength, moovSize, k - 1);
      var last := PartBytes(parts, movieScale, headLength, moovSize, k - 1);
      assert MoovBoxes(parts, movieScale, headLength, moovSize, k) == MoovBoxes(parts, movieScale, headLength, moovSize, k - 1) + [last];
      ConcatPush(MoovBoxes(parts, movieScale, headLength, moovSize, k - 1), last);
    }
  }

  lemma PartIsOne(parts: seq<Part>, movieScale: nat, headLength: nat, moovSize: nat, k: nat)
    requires k < |parts| && PartsFit(parts, movieScale) && (parts[k].Kept? ==> OneBox(parts[k].bytes))
    requires |PartBytes(parts, movieScale, headLength, moovSize, k)| < 0x1_0000_0000
    ensures OneBox(PartBytes(parts, movieScale, headLength, moovSize, k))
  {
    match parts[k]
    case Kept(_) => {}
    case Planned(source, plan) =>
      assert PartFits(source, plan, movieScale);
      hide PartFits, PartsFit, Start;
      TrakIsOne(source, plan, movieScale, NewOffsets(source, plan, Start(parts, headLength, moovSize, k)));
  }

  lemma TrakIsOne(source: Source, plan: Plan, movieScale: nat, offsets: seq<nat>)
    requires PartFits(source, plan, movieScale) && |TrakBytes(source, plan, movieScale, offsets)| < 0x1_0000_0000
    ensures OneBox(TrakBytes(source, plan, movieScale, offsets)) && NameOf(TrakBytes(source, plan, movieScale, offsets)) == TRAK
  {
    var trak := TrakBytes(source, plan, movieScale, offsets);
    hide StblBytes, ElstBytes, EditDuration, Plannable, OneBox, NameOf, HeaderLength;
    var a := source.around;
    BoxIsOne(TRAK,
        a.trakBefore + (if plan.delay > 0 then ElstBytes(plan.delay, EditDuration(source, plan, movieScale)) else [])
        + Box(MDIA, a.mdiaBefore + Box(MINF, a.minfBefore + StblBytes(source, plan, offsets) + a.minfAfter) + a.mdiaAfter)
        + a.trakAfter);
  }

  /** Every child of the new `moov` is found where it was written. */
  lemma MoovChild(file: Buffer, moov: FoundBox, parts: seq<Part>, movieScale: nat, headLength: nat, moovSize: nat, k: nat)
    requires PartsFit(parts, movieScale) && (forall i | 0 <= i < |parts| && parts[i].Kept? :: OneBox(parts[i].bytes)) && k < |parts|
    requires |Moov(parts, movieScale, headLength, moovSize)| < 0x1_0000_0000 && Holds(file, moov, Moov(parts, movieScale, headLength, moovSize))
    ensures var kids := Children(file, moov);
            kids.Some? && |kids.value| == |parts| && Holds(file, kids.value[k], PartBytes(parts, movieScale, headLength, moovSize, k))
    ensures |PartBytes(parts, movieScale, headLength, moovSize, k)| < 0x1_0000_0000
  {
    PayloadIsBoxes(parts, movieScale, headLength, moovSize, |parts|);
    var boxes := MoovBoxes(parts, movieScale, headLength, moovSize, |parts|);
    BoxLength(MOOV, Concat(boxes));
    hide Box, PartBytes, PartsFit, Holds, HoldsBoxes, OneBox, Concat, Children;
    forall i | 0 <= i < |boxes|
      ensures OneBox(boxes[i])
    {
      PartIsShorter(boxes, i);
      PartIsOne(parts, movieScale, headLength, moovSize, i);
    }
    PartIsShorter(boxes, k);
    WrittenHolds(file, moov, MOOV, boxes);
    ChildAt(file, moov, boxes, k);
  }

  lemma MoovFound(head: Buffer, heads: seq<Buffer>, parts: seq<Part>, movieScale: nat)
    requires Fits(parts, movieScale, |head|) && Boxed(head, heads, parts)
    ensures var out, written := Remuxed(head, parts, movieScale), Moov(parts, movieScale, |head|, MoovSize(parts, movieScale, |head|));
            |written| < 0x1_0000_0000 && MoovOf(out).Some? && Holds(out, MoovOf(out).value, written)
  {
    OutIsBoxes(head, heads, parts, movieScale);
    var out, size := Remuxed(head, parts, movieScale), MoovSize(parts, movieScale, |head|);
    hide Fits, Boxed, PartsFit, MoovPayload, Box, Concat, Extra, OneBox, NameOf, HeaderLength, Child, Holds, Moov, Remuxed, MoovSize;
    var all := heads + [Moov(parts, movieScale, |head|, size)] + Appended(parts);
    assert out[0..|out|] == out;
    forall i | 0 <= i < |heads|
      ensures NameOf(all[i]) != MOOV
    {
      assert all[i] == heads[i];
    }
    ChildIs(out, Whole(out), all, |heads|);
  }

  /** The box of replacements, when there are any. */
  function Appended(parts: seq<Part>): seq<Buffer> {
    var extra := Extra(parts, |parts|);
    if |extra| > 0 then [Box(MDAT, Concat(extra))] else []
  }

  lemma OutIsBoxes(head: Buffer, heads: seq<Buffer>, parts: seq<Part>, movieScale: nat)
    requires Fits(parts, movieScale, |head|) && Boxed(head, heads, parts)
    ensures var size := MoovSize(parts, movieScale, |head|);
            var moov := Moov(parts, movieScale, |head|, size);
            && |moov| < 0x1_0000_0000 && NameOf(moov) == MOOV && NoneNamed(heads, MOOV)
            && AreBoxes(heads + [moov] + Appended(parts)) && Remuxed(head, parts, movieScale) == Concat(heads + [moov] + Appended(parts))
  {
    assert PartsFit(parts, movieScale);
    var size := MoovSize(parts, movieScale, |head|);
    MoovIsOne(parts, movieScale, |head|, size);
    MoovSizeFixed(parts, movieScale, |head|, 0, size);
    AppendedIsBoxes(parts);
    hide MoovPayload, PartsFit, Box, Concat, Extra, OneBox, NameOf, Moov;
    ConcatBetween(heads, Moov(parts, movieScale, |head|, size), Appended(parts));
    BoxesBetween(heads, Moov(parts, movieScale, |head|, size), Appended(parts));
  }

  lemma MoovIsOne(parts: seq<Part>, movieScale: nat, headLength: nat, size: nat)
    requires PartsFit(parts, movieScale)
    ensures var moov := Moov(parts, movieScale, headLength, size); |moov| < 0x1_0000_0000 ==> OneBox(moov) && NameOf(moov) == MOOV
  {
    hide MoovPayload, OneBox, NameOf, HeaderLength, PartsFit;
    var payload := MoovPayload(parts, movieScale, headLength, size, |parts|);
    if |Moov(parts, movieScale, headLength, size)| < 0x1_0000_0000 {
      BoxIsOne(MOOV, payload);
    }
  }

  lemma AppendedIsBoxes(parts: seq<Part>)
    requires 8 + |Concat(Extra(parts, |parts|))| < 0x1_0000_0000
    ensures AreBoxes(Appended(parts))
    ensures Concat(Appended(parts)) == if |Extra(parts, |parts|)| > 0 then Box(MDAT, Concat(Extra(parts, |parts|))) else []
  {
    BoxIsOne(MDAT, Concat(Extra(parts, |parts|)));
    hide Box, Extra, OneBox, NameOf, HeaderLength;
    ConcatOne(Box(MDAT, Concat(Extra(parts, |parts|))));
  }

  /**
   The re-muxed file, walked: `moov` is found, its child `k` is the rewritten track, and
   in it the reader comes down to the tables of the plan and the edit list of the plan.
   */
  lemma RemuxedReadsBack(head: Buffer, heads: seq<Buffer>, parts: seq<Part>, movieScale: nat, k: nat, c: Copied)
    requires Fits(parts, movieScale, |head|) && Boxed(head, heads, parts)
    requires k < |parts| && parts[k].Planned? && PartFits(parts[k].source, parts[k].plan, movieScale) && Consists(parts[k].source.around, c)
    ensures var out, source, plan := Remuxed(head, parts, movieScale), parts[k].source, parts[k].plan;
            && MoovOf(out).Some? && var kids := Children(out, MoovOf(out).value);
            && kids.Some? && |kids.value| == |parts| && kids.value[k].end <= |out| && kids.value[k].name == TRAK
            && var trak := kids.value[k];
            && StblOf(out, trak).Some?
            && PayloadsOf(out, StblOf(out, trak).value) == Some(TablePayloads(source, plan, NewOffsets(source, plan, Start(parts, |head|, MoovSize(parts, movieScale, |head|), k))))
            && EditsOf(out, trak, movieScale) == Some(PlannedEdits(source, plan, movieScale))
  {
    MoovFound(head, heads, parts, movieScale);
    assert PartsFit(parts, movieScale) && forall i | 0 <= i < |parts| && parts[i].Kept? :: OneBox(parts[i].bytes);
    var out, size := Remuxed(head, parts, movieScale), MoovSize(parts, movieScale, |head|);
    hide Fits, PartsFit, Boxed, Remuxed, Moov, MoovSize, Start, MoovOf, Children, StblOf, PayloadsOf, TablePayloads, EditsOf, PlannedEdits, TrakBytes, NewOffsets, OneBox;
    var moov := MoovOf(out).value;
    MoovChild(out, moov, parts, movieScale, |head|, size, k);
    var trak := Children(out, moov).value[k];
    TrackReadsBack(out, trak, parts[k].source, parts[k].plan, movieScale, NewOffsets(parts[k].source, parts[k].plan, Start(parts, |head|, size, k)), c);
  }

  lemma TrackReadsBack(file: Buffer, trak: FoundBox, source: Source, plan: Plan, movieScale: nat, offsets: seq<nat>, c: Copied)
    requires PartFits(source, plan, movieScale) && Consists(source.around, c)
    requires |TrakBytes(source, plan, movieScale, offsets)| < 0x1_0000_0000 && Holds(file, trak, TrakBytes(source, plan, movieScale, offsets))
    ensures trak.end <= |file| && trak.name == TRAK && StblOf(file, trak).Some?
    ensures PayloadsOf(file, StblOf(file, trak).value) == Some(TablePayloads(source, plan, offsets))
    ensures EditsOf(file, trak, movieScale) == Some(PlannedEdits(source, plan, movieScale))
  {
    assert OneBox(source.around.stsd) && NameOf(source.around.stsd) == STSD && trak.end <= |file|;
    assert Plannable(source, plan) && Int32s(plan.cts);
    TrakIsOne(source, plan, movieScale, offsets);
    assert trak.name == TRAK;
    hide Consists, PartFits, Holds, TrakBytes, StblBytes, StblOf, PayloadsOf, EditsOf, OneBox, NameOf, Plannable, TablePayloads, PlannedEdits;
    StblFound(file, trak, source, plan, movieScale, offsets, c);
    TablesFound(file, StblOf(file, trak).value, source, plan, offsets);
    EditsFound(file, trak, source, plan, movieScale, offsets, c);
  }
}

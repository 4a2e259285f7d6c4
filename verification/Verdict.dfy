/** The segment branch of `judge` (tools/src/verify.ts): timing on a clip and on the original, and the verdict they lead to. */
module Verdict {
  import opened ByteStrings
  import opened Primitives
  import opened Sorting
  import opened Timing
  import opened Nal
  import opened Gops
  import opened Segments
  import opened Binding

  datatype Outcome =
    | NoProofFound | CorruptedProof | NestedProof | UnsupportedFormatVersion
    | TamperedFile | FramesNotCompared | VerifiedClip | Authentic

  // ---- what the core signs about the media ----

  datatype SignedTiming = SignedTiming(videoTimescale: int, audioTimescale: Option<int>, root: string)

  datatype SignedPresentation = SignedPresentation(config: string, matrix: seq<int>, display: seq<int>)

  datatype SignedMedia = SignedMedia(segmentCount: int, timing: SignedTiming, presentation: SignedPresentation)

  function SignedScales(signed: SignedTiming): Timescales {
    Timescales(signed.videoTimescale, signed.audioTimescale)
  }

  predicate SomeDiffers(read: seq<int>, signed: seq<int>) {
    exists i | 0 <= i < |read| :: DiffersAt(read, signed, i)
  }

  predicate DiffersAt(read: seq<int>, signed: seq<int>, i: nat)
    requires i < |read|
  {
    i >= |signed| || read[i] != signed[i]
  }

  predicate PresentationDiffers(b64: Base64, signed: SignedPresentation, read: Option<Presentation>) {
    read.None? || b64.encode(read.value.config) != signed.config
    || SomeDiffers(read.value.matrix, signed.matrix) || SomeDiffers(read.value.display, signed.display)
  }

  /** An entry for every index from 0 to `count - 1`, each once. */
  predicate EntriesComplete(entries: seq<SegmentEntry>, count: int) {
    |entries| == count && |GopIndices(entries)| == count && forall n | n in GopIndices(entries) :: 0 <= n < count
  }

  function TimingHashAt(b64: Base64, byIndex: map<int, SegmentEntry>, keys: seq<int>, i: nat): Buffer
    requires i < |keys| && keys[i] in byIndex
  {
    b64.decode(byIndex[keys[i]].timing)
  }

  /** The entries' timing hashes in index order, each entry once. */
  function EntryTimings(b64: Base64, entries: seq<SegmentEntry>): seq<Buffer> {
    var byIndex := ByIndex(entries);
    var keys := Sorted(byIndex.Keys);
    SortedKeys(byIndex);
    seq(|keys|, i requires 0 <= i < |keys| => TimingHashAt(b64, byIndex, keys, i))
  }

  /** `media.timing.root` recomputed from the entries. */
  function EntriesRoot(h: Hash, b64: Base64, entries: seq<SegmentEntry>): Digest {
    h(Concat(EntryTimings(b64, entries)))
  }

  // ---- timing on a clip ----

  datatype TimingProblem =
    | NotAuthenticated
    | Inexpressible(index: nat)
    | Differs(index: nat)
    | VideoTrimmed(index: nat)
    | AudioTrimmed(index: nat)

  /** Every record a container reading gives has one offset a sample and one duration a frame. */
  ghost predicate WellTimed(gops: seq<Segment>) {
    forall k | 0 <= k < |gops| :: gops[k].timing.Paired()
  }

  function GopTimingProblem(h: Hash, b64: Base64, read: Reading, signed: SignedTiming, byIndex: map<int, SegmentEntry>, gop: Segment): Option<TimingProblem>
    requires read.Read? && gop.timing.Paired() && gop.index.Some?
  {
    var n := gop.index.value;
    var received := ReceivedTimingHash(h, gop.timing, read.timescales, SignedScales(signed));
    if received.None? then Some(Inexpressible(n))
    else if n !in byIndex || b64.encode(received.value) != byIndex[n].timing then Some(Differs(n))
    else if read.videoEdit.Some? && EditTrims(read.videoEdit.value, gop.videoExtent) then Some(VideoTrimmed(n))
    else if read.audioEdit.Some? && gop.audioExtent.Some? && EditTrims(read.audioEdit.value, gop.audioExtent.value) then Some(AudioTrimmed(n))
    else None
  }

  predicate Credited(gop: Segment, verified: seq<int>) {
    gop.index.Some? && gop.index.value in verified
  }

  /** The first problem of a credited GOP, from GOP `k` on. */
  function FirstTimingProblem(h: Hash, b64: Base64, read: Reading, signed: SignedTiming, byIndex: map<int, SegmentEntry>, verified: seq<int>, k: nat): Option<TimingProblem>
    requires read.Read? && WellTimed(read.gops) && k <= |read.gops|
    decreases if read.Read? then |read.gops| - k else 0
  {
    if k == |read.gops| then None
    else
      var problem := if Credited(read.gops[k], verified) then GopTimingProblem(h, b64, read, signed, byIndex, read.gops[k]) else None;
      if problem.Some? then problem else FirstTimingProblem(h, b64, read, signed, byIndex, verified, k + 1)
  }

  function ClipProblem(h: Hash, b64: Base64, read: Reading, signed: SignedTiming, entries: seq<SegmentEntry>, verified: seq<int>, authenticated: bool): Option<TimingProblem>
    requires read.Read? && WellTimed(read.gops)
  {
    if !authenticated then Some(NotAuthenticated) else FirstTimingProblem(h, b64, read, signed, ByIndex(entries), verified, 0)
  }

  method ClipTimingProblem(h: Hash, b64: Base64, read: Reading, signed: SignedTiming, entries: seq<SegmentEntry>, verified: seq<int>, authenticated: bool)
    returns (problem: Option<TimingProblem>)
    requires read.Read? && WellTimed(read.gops)
    ensures problem == ClipProblem(h, b64, read, signed, entries, verified, authenticated)
  {
    if !authenticated {
      return Some(NotAuthenticated);
    }
    hide ByIndex, ReceivedTimingHash, EditTrims;
    var byIndex := ByIndex(entries);
    for k := 0 to |read.gops|
      invariant FirstTimingProblem(h, b64, read, signed, byIndex, verified, k) == FirstTimingProblem(h, b64, read, signed, byIndex, verified, 0)
    {
      var gop := read.gops[k];
      if gop.index.None? || gop.index.value !in verified {
        continue;
      }
      var n := gop.index.value;
      var received := ReceivedTimingHash(h, gop.timing, read.timescales, SignedScales(signed));
      if received.None? {
        return Some(Inexpressible(n));
      }
      if n !in byIndex || b64.encode(received.value) != byIndex[n].timing {
        return Some(Differs(n));
      }
      if read.videoEdit.Some? && EditTrims(read.videoEdit.value, gop.videoExtent) {
        return Some(VideoTrimmed(n));
      }
      if read.audioEdit.Some? && gop.audioExtent.Some? && EditTrims(read.audioEdit.value, gop.audioExtent.value) {
        return Some(AudioTrimmed(n));
      }
    }
    return None;
  }

  // ---- timing on the original ----

  /** Per index, the hash of the one GOP of this capture that names it; none when it is named twice or cannot be hashed. */
  function TimingHashes(h: Hash, read: Reading, scales: Timescales, captureId: Buffer, k: nat): map<nat, Option<Digest>>
    requires read.Read? && WellTimed(read.gops) && k <= |read.gops|
  {
    if k == 0 then map[]
    else
      var before := TimingHashes(h, read, scales, captureId, k - 1);
      var gop := read.gops[k - 1];
      if gop.index.None? || !Ours(gop, captureId) then before
      else before[gop.index.value := if gop.index.value in before then None else ReceivedTimingHash(h, gop.timing, read.timescales, scales)]
  }

  predicate AllHashed(hashes: map<nat, Option<Digest>>, count: int) {
    forall n: nat | n < count :: n in hashes && hashes[n].Some?
  }

  function InOrderHashes(hashes: map<nat, Option<Digest>>, count: nat): seq<Buffer>
    requires AllHashed(hashes, count)
  {
    seq(count, n requires 0 <= n < count => hashes[n].value)
  }

  predicate OriginalDiffers(h: Hash, b64: Base64, read: Reading, signed: SignedTiming, captureId: Buffer, count: int)
    requires read.Read? && WellTimed(read.gops)
  {
    var hashes := TimingHashes(h, read, SignedScales(signed), captureId, |read.gops|);
    !AllHashed(hashes, count) || b64.encode(h(Concat(InOrderHashes(hashes, if count < 0 then 0 else count)))) != signed.root
  }

  method OriginalTimingDiffers(h: Hash, b64: Base64, read: Reading, signed: SignedTiming, captureId: Buffer, count: int) returns (differs: bool)
    requires read.Read? && WellTimed(read.gops)
    ensures differs == OriginalDiffers(h, b64, read, signed, captureId, count)
  {
    hide ReceivedTimingHash;
    var scales := SignedScales(signed);
    var hashes: map<nat, Option<Digest>> := map[];
    for k := 0 to |read.gops|
      invariant hashes == TimingHashes(h, read, scales, captureId, k)
    {
      var gop := read.gops[k];
      if gop.index.None? || !Ours(gop, captureId) {
        continue;
      }
      var n := gop.index.value;
      hashes := hashes[n := if n in hashes then None else ReceivedTimingHash(h, gop.timing, read.timescales, scales)];
    }
    var ordered: seq<Buffer> := [];
    var n: nat := 0;
    while n < count
      invariant AllHashed(hashes, n) && (n <= count || (count < 0 && n == 0))
      invariant ordered == InOrderHashes(hashes, n)
    {
      if n !in hashes || hashes[n].None? {
        return true;
      }
      ordered := ordered + [hashes[n].value];
      n := n + 1;
    }
    return b64.encode(h(Concat(ordered))) != signed.root;
  }

  // ---- the verdict ----

  /** What the branch decides; `Authentic` leaves the level still to be computed. */
  datatype SegmentVerdict = SegmentVerdict(outcome: Outcome, verified: seq<int>, labels: seq<string>)

  function Intersect(verified: seq<int>, chain: seq<int>): seq<int> {
    if |verified| == 0 then []
    else Intersect(verified[..|verified| - 1], chain) + if verified[|verified| - 1] in chain then [verified[|verified| - 1]] else []
  }

  const NOT_RECOMPUTED := "segment content not recomputed"

  function RecomputeLabels(recompute: bool, reading: Reading): seq<string> {
    if !recompute || reading.Unreadable? then [NOT_RECOMPUTED] else []
  }

  function BindingWith(b64: Base64, recompute: bool, reading: Reading, captureId: Buffer, entries: seq<SegmentEntry>): Binding
    requires recompute ==> !reading.Malformed?
  {
    if recompute then BindingOf(b64, reading, captureId, entries) else NotLocated(NOT_RECOMPUTED)
  }

  function UnboundLabel(b64: Base64, signed: SignedPresentation, read: Reading): seq<string>
    requires read.Read?
  {
    if read.layout.Some? && read.layout.value != "" then ["tracks not bound"]
    else if PresentationDiffers(b64, signed, read.presentation) then ["presentation differs"]
    else []
  }

  /** A verdict for a file whose `media.hash` does not match, once nothing is tampered. */
  function ClipVerdict(h: Hash, b64: Base64, entries: seq<SegmentEntry>, media: SignedMedia, reading: Reading, binding: Binding, verified: seq<int>, labels: seq<string>): SegmentVerdict
    requires binding.Located? ==> reading.Read? && WellTimed(reading.gops)
  {
    if binding.NotLocated? then SegmentVerdict(FramesNotCompared, verified, labels)
    else
      var unbound := UnboundLabel(b64, media.presentation, reading);
      var retimed := ClipProblem(h, b64, reading, media.timing, entries, verified, EntriesComplete(entries, media.segmentCount));
      if unbound != [] || retimed.Some? then
        SegmentVerdict(FramesNotCompared, [], labels + unbound + if retimed.Some? then ["timing differs"] else [])
      else SegmentVerdict(VerifiedClip, verified, labels)
  }

  /** And for the original, whose `media.hash` does match. */
  function OriginalVerdict(h: Hash, b64: Base64, captureId: Buffer, media: SignedMedia, recompute: bool, reading: Reading, chain: ChainResult, verified: seq<int>, labels: seq<string>): SegmentVerdict
    requires recompute && reading.Read? ==> WellTimed(reading.gops)
  {
    var read := recompute && reading.Read?;
    var shown := if read && PresentationDiffers(b64, media.presentation, reading.presentation) then ["presentation differs"] else [];
    var timed := if read && OriginalDiffers(h, b64, reading, media.timing, captureId, media.segmentCount) then ["timing differs"] else [];
    SegmentVerdict(if chain.status == Clip then VerifiedClip else Authentic, verified, labels + shown + timed)
  }

  function VerdictOf(h: Hash, b64: Base64, verifies: Verifier, captureId: Buffer, entries: seq<SegmentEntry>, media: SignedMedia,
                     recompute: bool, reading: Reading, mediaMatches: bool, labels: seq<string>): SegmentVerdict
    requires reading.Read? ==> WellTimed(reading.gops)
  {
    var chain := ChainOf(h, b64, verifies, captureId, media.segmentCount, entries);
    if recompute && reading.Malformed? then SegmentVerdict(TamperedFile, [], [])
    else
      var binding := BindingWith(b64, recompute, reading, captureId, entries);
      var shown := labels + RecomputeLabels(recompute, reading);
      var verified := if binding.Located? then Intersect(binding.verified, chain.verified) else [];
      if chain.status == Tampered then SegmentVerdict(TamperedFile, verified, [])
      else if EntriesComplete(entries, media.segmentCount) && b64.encode(EntriesRoot(h, b64, entries)) != media.timing.root then
        SegmentVerdict(TamperedFile, verified, [])
      else if binding.Located? && binding.problems != [] then SegmentVerdict(TamperedFile, verified, [])
      else if !mediaMatches then ClipVerdict(h, b64, entries, media, reading, binding, verified, shown)
      else OriginalVerdict(h, b64, captureId, media, recompute, reading, chain, verified, shown)
  }

  /** No label weighs on the outcome, or on the segments credited. */
  lemma LabelsDecideNothing(h: Hash, b64: Base64, verifies: Verifier, captureId: Buffer, entries: seq<SegmentEntry>, media: SignedMedia,
                            recompute: bool, reading: Reading, mediaMatches: bool, a: seq<string>, b: seq<string>)
    requires reading.Read? ==> WellTimed(reading.gops)
    ensures var one := VerdictOf(h, b64, verifies, captureId, entries, media, recompute, reading, mediaMatches, a);
            var other := VerdictOf(h, b64, verifies, captureId, entries, media, recompute, reading, mediaMatches, b);
            one.outcome == other.outcome && one.verified == other.verified
  {
    hide ChainOf, BindingOf, EntriesComplete, EntriesRoot, PresentationDiffers, OriginalDiffers, ClipProblem, Intersect, UnboundLabel;
  }

  method KeepVerified(verified: seq<int>, chain: seq<int>) returns (kept: seq<int>)
    ensures kept == Intersect(verified, chain)
  {
    kept := [];
    for i := 0 to |verified|
      invariant kept == Intersect(verified[..i], chain)
    {
      assert verified[..i + 1][..i] == verified[..i];
      if verified[i] in chain {
        kept := kept + [verified[i]];
      }
    }
    assert verified[..|verified|] == verified;
  }

  method JudgeSegments(h: Hash, b64: Base64, verifies: Verifier, captureId: Buffer, entries: seq<SegmentEntry>, media: SignedMedia,
                       recompute: bool, reading: Reading, mediaMatches: bool, labels: seq<string>) returns (verdict: SegmentVerdict)
    requires reading.Read? ==> WellTimed(reading.gops)
    ensures verdict == VerdictOf(h, b64, verifies, captureId, entries, media, recompute, reading, mediaMatches, labels)
  {
    hide ChainOf, BindingOf, EntriesComplete, EntriesRoot, PresentationDiffers, OriginalDiffers, ClipProblem, Intersect;
    var chain := VerifyChain(h, b64, verifies, captureId, media.segmentCount, entries);
    var shown := labels;
    var binding := NotLocated(NOT_RECOMPUTED);
    if !recompute {
      shown := shown + [NOT_RECOMPUTED];
    } else {
      if reading.Malformed? {
        return SegmentVerdict(TamperedFile, [], []);
      }
      if reading.Unreadable? {
        shown := shown + [NOT_RECOMPUTED];
      }
      binding := BindSegments(b64, reading, captureId, entries);
    }
    LocatedIsRead(b64, recompute, reading, captureId, entries);
    assert labels + [] == labels;
    var verified: seq<int> := [];
    if binding.Located? {
      verified := KeepVerified(binding.verified, chain.verified);
    }
    if chain.status == Tampered {
      return SegmentVerdict(TamperedFile, verified, []);
    }
    var authenticated := EntriesComplete(entries, media.segmentCount);
    if authenticated && b64.encode(EntriesRoot(h, b64, entries)) != media.timing.root {
      return SegmentVerdict(TamperedFile, verified, []);
    }
    if binding.Located? && binding.problems != [] {
      return SegmentVerdict(TamperedFile, verified, []);
    }
    if !mediaMatches {
      if binding.NotLocated? {
        return SegmentVerdict(FramesNotCompared, verified, shown);
      }
      var unbound := UnboundLabel(b64, media.presentation, reading);
      var retimed := ClipTimingProblem(h, b64, reading, media.timing, entries, verified, authenticated);
      if unbound != [] || retimed.Some? {
        shown := shown + unbound;
        if retimed.Some? {
          shown := shown + ["timing differs"];
        } else {
          assert shown + [] == shown;
        }
        return SegmentVerdict(FramesNotCompared, [], shown);
      }
      return SegmentVerdict(VerifiedClip, verified, shown);
    }
    ghost var before := shown;
    if recompute && reading.Read? {
      if PresentationDiffers(b64, media.presentation, reading.presentation) {
        shown := shown + ["presentation differs"];
      }
      var differs := OriginalTimingDiffers(h, b64, reading, media.timing, captureId, media.segmentCount);
      if differs {
        shown := shown + ["timing differs"];
      }
    }
    assert before + [] == before;
    return SegmentVerdict(if chain.status == Clip then VerifiedClip else Authentic, verified, shown);
  }

  lemma LocatedIsRead(b64: Base64, recompute: bool, reading: Reading, captureId: Buffer, entries: seq<SegmentEntry>)
    requires recompute ==> !reading.Malformed?
    ensures BindingWith(b64, recompute, reading, captureId, entries).Located? ==> recompute && reading.Read?
  {
  }
}

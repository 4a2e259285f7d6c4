/**
 What *verified clip* means. First exactly, as conditions on the file and the
 proof; then, when the hash has no collision among the messages at hand and the
 key signed only what the sealer gave it, as a statement about the recording:
 an ordered selection of the sealed segments, shown at the sealed instants.
 */
module ClipSoundness {
  import opened ByteStrings
  import opened Primitives
  import opened Sorting
  import opened Timing
  import opened Nal
  import opened Gops
  import opened Segments
  import opened Binding
  import opened Verdict

  /** Every entry of the proof links and verifies. */
  ghost predicate ChainHolds(h: Hash, b64: Base64, verifies: Verifier, captureId: Buffer, entries: seq<SegmentEntry>) {
    forall n | n in ByIndex(entries) :: EntryHolds(h, b64, verifies, captureId, ByIndex(entries), n)
  }

  /** The entries' timing hashes are the ones the core signs. */
  predicate TimingAuthenticated(h: Hash, b64: Base64, entries: seq<SegmentEntry>, media: SignedMedia) {
    EntriesComplete(entries, media.segmentCount) && b64.encode(EntriesRoot(h, b64, entries)) == media.timing.root
  }

  /** The tracks are the ones a segment hash covers, shown as the core says. */
  predicate PresentedAsSigned(b64: Base64, media: SignedMedia, reading: Reading)
    requires reading.Read?
  {
    (reading.layout.None? || reading.layout.value == "") && reading.presentation.Some? && SamePresentation(b64, media.presentation, reading.presentation.value)
  }

  /** Configuration, matrix and display as the core signs them. */
  predicate SamePresentation(b64: Base64, signed: SignedPresentation, read: Presentation) {
    b64.encode(read.config) == signed.config && read.matrix <= signed.matrix && read.display <= signed.display
  }

  lemma PresentationExact(b64: Base64, signed: SignedPresentation, read: Option<Presentation>)
    ensures PresentationDiffers(b64, signed, read) <==> !(read.Some? && SamePresentation(b64, signed, read.value))
  {
    if read.Some? {
      SomeDiffersExact(read.value.matrix, signed.matrix);
      SomeDiffersExact(read.value.display, signed.display);
    }
  }

  lemma SomeDiffersExact(read: seq<int>, signed: seq<int>)
    ensures SomeDiffers(read, signed) <==> !(read <= signed)
  {
    if |read| > |signed| {
      assert DiffersAt(read, signed, |signed|);
    } else if !SomeDiffers(read, signed) {
      forall i | 0 <= i < |read|
        ensures read[i] == signed[i]
      {
        assert !DiffersAt(read, signed, i);
      }
      assert read == signed[..|read|];
    }
  }

  /** No edit list trims any GOP. */
  ghost predicate NoEditTrims(reading: Reading)
    requires reading.Read?
  {
    forall k | 0 <= k < |reading.gops| :: Untrimmed(reading, reading.gops[k])
  }

  /** Neither track's edit trims the GOP. */
  predicate Untrimmed(reading: Reading, gop: Segment)
    requires reading.Read?
  {
    && (reading.videoEdit.Some? ==> !EditTrims(reading.videoEdit.value, gop.videoExtent))
    && (reading.audioEdit.Some? && gop.audioExtent.Some? ==> !EditTrims(reading.audioEdit.value, gop.audioExtent.value))
  }

  /** The GOP names an entry, and its timing, converted to the signed timescales, has the hash that entry carries. */
  predicate TimedAsListed(h: Hash, b64: Base64, entries: seq<SegmentEntry>, media: SignedMedia, reading: Reading, gop: Segment)
    requires reading.Read? && gop.timing.Paired()
  {
    && gop.index.Some? && gop.index.value in ByIndex(entries)
    && var received := ReceivedTimingHash(h, gop.timing, reading.timescales, SignedScales(media.timing));
    && received.Some? && b64.encode(received.value) == ByIndex(entries)[gop.index.value].timing
  }

  /** Every GOP is at the instants its entry lists, and none is trimmed. */
  ghost predicate ShownAsSigned(h: Hash, b64: Base64, entries: seq<SegmentEntry>, media: SignedMedia, reading: Reading)
    requires reading.Read? && WellTimed(reading.gops)
  {
    (forall k | 0 <= k < |reading.gops| :: TimedAsListed(h, b64, entries, media, reading, reading.gops[k])) && NoEditTrims(reading)
  }

  /** A GOP has no timing problem exactly when it is timed as listed and untrimmed. */
  lemma NoTimingProblem(h: Hash, b64: Base64, entries: seq<SegmentEntry>, media: SignedMedia, reading: Reading, gop: Segment)
    requires reading.Read? && gop.timing.Paired() && gop.index.Some?
    ensures GopTimingProblem(h, b64, reading, media.timing, ByIndex(entries), gop).None? <==>
            TimedAsListed(h, b64, entries, media, reading, gop) && Untrimmed(reading, gop)
  {
    hide ByIndex, ReceivedTimingHash, EditTrims;
  }

  ghost predicate ClipAccepted(h: Hash, b64: Base64, verifies: Verifier, captureId: Buffer, entries: seq<SegmentEntry>, media: SignedMedia, reading: Reading)
    requires reading.Read? && WellTimed(reading.gops)
  {
    && AnyOurs(reading.gops, captureId)
    && AllBound(b64, ByIndex(entries), captureId, reading.gops)
    && ChainHolds(h, b64, verifies, captureId, entries)
    && TimingAuthenticated(h, b64, entries, media)
    && PresentedAsSigned(b64, media, reading)
    && ShownAsSigned(h, b64, entries, media, reading)
  }

  // ---- the decision, exactly ----

  lemma {:induction false} HoldingStops(h: Hash, b64: Base64, verifies: Verifier, captureId: Buffer, byIndex: map<int, SegmentEntry>, keys: seq<int>, from: nat)
    requires forall k | k in keys :: k in byIndex
    requires from <= |keys|
    ensures HoldingPrefix(h, b64, verifies, captureId, byIndex, keys, from) == |keys| <==>
            forall i | from <= i < |keys| :: EntryHolds(h, b64, verifies, captureId, byIndex, keys[i])
    decreases |keys| - from
  {
    hide EntryHolds;
    if from < |keys| {
      HoldingStops(h, b64, verifies, captureId, byIndex, keys, from + 1);
    }
  }

  /** The chain check is *tampered* exactly when some entry does not hold; otherwise it credits every entry. */
  lemma ChainExact(h: Hash, b64: Base64, verifies: Verifier, captureId: Buffer, count: int, entries: seq<SegmentEntry>)
    ensures var chain := ChainOf(h, b64, verifies, captureId, count, entries);
            && (chain.status != Tampered <==> ChainHolds(h, b64, verifies, captureId, entries))
            && (chain.status != Tampered ==> chain.verified == Sorted(ByIndex(entries).Keys))
  {
    hide EntryHolds, ByIndex, Sorted, HoldingPrefix;
    var byIndex := ByIndex(entries);
    var keys := Sorted(byIndex.Keys);
    SortedKeys(byIndex);
    HoldingStops(h, b64, verifies, captureId, byIndex, keys, 0);
    if forall i | 0 <= i < |keys| :: EntryHolds(h, b64, verifies, captureId, byIndex, keys[i]) {
      forall n | n in byIndex
        ensures EntryHolds(h, b64, verifies, captureId, byIndex, n)
      {
        assert n in keys;
      }
      assert keys[..|keys|] == keys;
    }
  }

  lemma {:induction false} IntersectAll(verified: seq<int>, chain: seq<int>)
    requires forall i | 0 <= i < |verified| :: verified[i] in chain
    ensures Intersect(verified, chain) == verified
  {
    if |verified| > 0 {
      var n := |verified| - 1;
      IntersectAll(verified[..n], chain);
      assert verified[n] in chain;
      assert Intersect(verified, chain) == verified[..n] + [verified[n]];
    }
  }

  lemma {:induction false} FirstProblemExact(h: Hash, b64: Base64, entries: seq<SegmentEntry>, media: SignedMedia, read: Reading, verified: seq<int>, k: nat)
    requires read.Read? && WellTimed(read.gops) && k <= |read.gops|
    requires forall i | 0 <= i < |read.gops| :: Credited(read.gops[i], verified)
    ensures FirstTimingProblem(h, b64, read, media.timing, ByIndex(entries), verified, k).None? <==>
            forall i | k <= i < |read.gops| :: TimedAsListed(h, b64, entries, media, read, read.gops[i]) && Untrimmed(read, read.gops[i])
    decreases |read.gops| - k
  {
    hide GopTimingProblem, TimedAsListed, Untrimmed, ByIndex;
    if k < |read.gops| {
      assert Credited(read.gops[k], verified);
      FirstProblemExact(h, b64, entries, media, read, verified, k + 1);
      NoTimingProblem(h, b64, entries, media, read, read.gops[k]);
    }
  }

  /**
   Over a readable file whose `media.hash` does not match, the verdict is *verified
   clip* exactly on these conditions, and credits exactly the file's GOPs.
   */
  lemma ClipVerdictExact(h: Hash, b64: Base64, verifies: Verifier, captureId: Buffer, entries: seq<SegmentEntry>, media: SignedMedia,
                         reading: Reading, labels: seq<string>)
    requires reading.Read? && WellTimed(reading.gops)
    ensures var verdict := VerdictOf(h, b64, verifies, captureId, entries, media, true, reading, false, labels);
            && (verdict.outcome == VerifiedClip <==> ClipAccepted(h, b64, verifies, captureId, entries, media, reading))
            && (verdict.outcome == VerifiedClip ==> verdict.verified == Indices(reading.gops))
  {
    hide ChainOf, BindingOf, EntriesComplete, EntriesRoot, PresentationDiffers, ByIndex, AllBound, ChainHolds, FirstTimingProblem, GopTimingProblem, TimedAsListed, Untrimmed;
    ChainExact(h, b64, verifies, captureId, media.segmentCount, entries);
    PresentationExact(b64, media.presentation, reading.presentation);
    hide SamePresentation;
    if AnyOurs(reading.gops, captureId) {
      BindingExact(b64, reading, captureId, entries);
      if AllBound(b64, ByIndex(entries), captureId, reading.gops) && ChainHolds(h, b64, verifies, captureId, entries) {
        AllCredited(b64, captureId, reading, entries);
        FirstProblemExact(h, b64, entries, media, reading, Indices(reading.gops), 0);
      }
    } else {
      NotLocatedHere(b64, reading, captureId, entries);
    }
  }

  lemma NotLocatedHere(b64: Base64, reading: Reading, captureId: Buffer, entries: seq<SegmentEntry>)
    requires reading.Read? && !AnyOurs(reading.gops, captureId)
    ensures BindingOf(b64, reading, captureId, entries).NotLocated?
  {
  }

  lemma AllCredited(b64: Base64, captureId: Buffer, reading: Reading, entries: seq<SegmentEntry>)
    requires reading.Read? && AllBound(b64, ByIndex(entries), captureId, reading.gops)
    ensures forall k | 0 <= k < |reading.gops| :: reading.gops[k].index.Some?
    ensures Intersect(Indices(reading.gops), Sorted(ByIndex(entries).Keys)) == Indices(reading.gops)
    ensures forall k | 0 <= k < |reading.gops| :: Credited(reading.gops[k], Indices(reading.gops))
  {
    hide ByIndex;
    var signed := ByIndex(entries);
    assert forall k | 0 <= k < |reading.gops| :: Bound(b64, signed, captureId, reading.gops[k]);
    SortedKeys(signed);
    var indices := Indices(reading.gops);
    assert forall k | 0 <= k < |reading.gops| :: indices[k] == reading.gops[k].index.value;
    IntersectAll(indices, Sorted(signed.Keys));
  }

  // ---- against what was sealed ----

  /** A recording as its sealer had it: per segment, the bytes its content hash is over and its timing values. */
  datatype Sealed = Sealed(captureId: Buffer, inputs: seq<Buffer>, timings: seq<TimingValues>, scales: Timescales)

  ghost predicate Encoded(timings: seq<TimingValues>) {
    forall n | 0 <= n < |timings| :: timings[n].Paired() && TimingRecord(timings[n]).Some?
  }

  ghost predicate WellSealed(sealed: Sealed) {
    && |sealed.captureId| == 16 && |sealed.inputs| == |sealed.timings| <= Pow256(4)
    && Encoded(sealed.timings)
  }

  function Contents(h: Hash, sealed: Sealed): (contents: seq<Digest>)
    ensures |contents| == |sealed.inputs|
  {
    seq(|sealed.inputs|, n requires 0 <= n < |sealed.inputs| => h(sealed.inputs[n]))
  }

  function RecordHash(h: Hash, t: TimingValues): Buffer
    requires t.Paired() && TimingRecord(t).Some?
  {
    h(TimingRecord(t).value)
  }

  ghost function SealedTimings(h: Hash, timings: seq<TimingValues>): (hashes: seq<Buffer>)
    requires Encoded(timings)
    ensures |hashes| == |timings|
  {
    seq(|timings|, n requires 0 <= n < |timings| => RecordHash(h, timings[n]))
  }

  /** A segment message about this capture. */
  predicate NamesCapture(message: Buffer, captureId: Buffer) {
    |message| == 96 && message[..12] == SEPARATOR && message[12..28] == captureId
  }

  ghost predicate IsChainMessage(h: Hash, sealed: Sealed, message: Buffer)
    requires WellSealed(sealed)
  {
    exists n | 0 <= n < |sealed.inputs| :: message == ChainMessage(h, sealed.captureId, Contents(h, sealed), n)
  }

  /** Of this capture, the key signed the sealer's chain and nothing else. */
  ghost predicate SignedOnly(h: Hash, verifies: Verifier, sealed: Sealed)
    requires WellSealed(sealed)
  {
    forall m, s | verifies(m, s) && NamesCapture(m, sealed.captureId) :: IsChainMessage(h, sealed, m)
  }

  /** The core the sealer signed: its segment count, its timescales and its timing root. */
  ghost predicate GenuineCore(h: Hash, b64: Base64, sealed: Sealed, media: SignedMedia)
    requires WellSealed(sealed)
  {
    && media.segmentCount == |sealed.inputs|
    && SignedScales(media.timing) == sealed.scales
    && media.timing.root == b64.encode(h(Concat(SealedTimings(h, sealed.timings))))
  }

  /** Each GOP's content hash is taken over the bytes the reading says. */
  ghost predicate WellHashed(h: Hash, gops: seq<Segment>) {
    forall k | 0 <= k < |gops| :: gops[k].contentHash == h(gops[k].hashed)
  }

  /** The messages the theorem needs collision free: what was hashed at sealing and at verification. */
  ghost predicate ClipMessages(h: Hash, b64: Base64, sealed: Sealed, entries: seq<SegmentEntry>, reading: Reading, messages: iset<Buffer>)
    requires WellSealed(sealed) && reading.Read? && WellTimed(reading.gops)
  {
    && (forall n | 0 <= n < |sealed.inputs| :: sealed.inputs[n] in messages && TimingRecord(sealed.timings[n]).value in messages)
    && (forall k | 0 <= k < |reading.gops| :: reading.gops[k].hashed in messages)
    && (forall k | 0 <= k < |reading.gops| ::
          var converted := Convert(reading.gops[k].timing, reading.timescales, sealed.scales);
          converted.Some? && TimingRecord(converted.value).Some? ==> TimingRecord(converted.value).value in messages)
    && Concat(EntryTimings(b64, entries)) in messages
    && Concat(SealedTimings(h, sealed.timings)) in messages
  }

  /** Every entry's timing hash is 32 bytes, as the shape check demands. */
  predicate TimingShape(b64: Base64, entries: seq<SegmentEntry>) {
    forall i | 0 <= i < |entries| :: |b64.decode(entries[i].timing)| == 32
  }

  lemma {:induction false} ConcatFixedWidth(a: seq<Buffer>, b: seq<Buffer>)
    requires forall i | 0 <= i < |a| :: |a[i]| == 32
    requires forall i | 0 <= i < |b| :: |b[i]| == 32
    requires Concat(a) == Concat(b)
    ensures a == b
  {
    ConcatLength(a);
    ConcatLength(b);
    if |a| > 0 {
      SplitEqual(a[0], Concat(a[1..]), b[0], Concat(b[1..]));
      ConcatFixedWidth(a[1..], b[1..]);
      assert a == [a[0]] + a[1..] && b == [b[0]] + b[1..];
    }
  }

  lemma {:induction false} ConcatLength(a: seq<Buffer>)
    requires forall i | 0 <= i < |a| :: |a[i]| == 32
    ensures |Concat(a)| == 32 * |a|
  {
    if |a| > 0 {
      ConcatLength(a[1..]);
    }
  }

  /** An authenticated proof carries exactly the sealed timing hash of every segment. */
  lemma TimingsAreSealed(h: Hash, b64: Base64, sealed: Sealed, entries: seq<SegmentEntry>, media: SignedMedia, messages: iset<Buffer>)
    requires WellSealed(sealed) && b64.Faithful() && GenuineCore(h, b64, sealed, media) && TimingShape(b64, entries)
    requires TimingAuthenticated(h, b64, entries, media) && InjectiveOn(h, messages)
    requires Concat(EntryTimings(b64, entries)) in messages && Concat(SealedTimings(h, sealed.timings)) in messages
    ensures EntryTimings(b64, entries) == SealedTimings(h, sealed.timings)
    ensures Sorted(ByIndex(entries).Keys) == Range(|sealed.inputs|)
  {
    hide ByIndex, Sorted, TimingRecord, Concat;
    var mine, theirs := EntryTimings(b64, entries), SealedTimings(h, sealed.timings);
    var root := h(Concat(theirs));
    assert b64.decode(b64.encode(EntriesRoot(h, b64, entries))) == EntriesRoot(h, b64, entries);
    assert b64.decode(b64.encode(root)) == root;
    ByIndexKeys(entries);
    SortedKeys(ByIndex(entries));
    forall i | 0 <= i < |mine|
      ensures |mine[i]| == 32
    {
      var keys := Sorted(ByIndex(entries).Keys);
      assert keys[i] in keys;
      assert ByIndex(entries)[keys[i]] in entries;
    }
    ConcatFixedWidth(mine, theirs);
    CompleteIsRange(entries, |sealed.inputs|);
  }

  lemma CompleteIsRange(entries: seq<SegmentEntry>, count: nat)
    requires EntriesComplete(entries, count)
    ensures Sorted(ByIndex(entries).Keys) == Range(count)
  {
    hide ByIndex, Sorted;
    var s := GopIndices(entries);
    ByIndexKeys(entries);
    var all := Elements(Range(count));
    forall n | n in s
      ensures n in all
    {
      assert Range(count)[n] == n;
    }
    RangeSize(count);
    SubsetOfSize(s, all);
    SortedRange(s, count);
    assert Sorted(s) == Range(count);
  }

  lemma {:induction false} RangeSize(n: nat)
    ensures |Elements(Range(n))| == n
  {
    if n > 0 {
      RangeSize(n - 1);
      assert Range(n) == Range(n - 1) + [n - 1];
      assert Elements(Range(n)) == Elements(Range(n - 1)) + {n - 1};
    }
  }

  lemma SubsetOfSize(a: set<int>, b: set<int>)
    requires a <= b && |a| == |b|
    ensures a == b
  {
    assert b == a + (b - a);
    assert |b - a| == 0;
  }

  /** A verified entry of this capture carries the content hash the sealer computed for that index. */
  lemma EntryIsSealed(h: Hash, b64: Base64, verifies: Verifier, sealed: Sealed, entries: seq<SegmentEntry>, n: nat)
    requires WellSealed(sealed) && SignedOnly(h, verifies, sealed)
    requires n in ByIndex(entries) && EntryHolds(h, b64, verifies, sealed.captureId, ByIndex(entries), n)
    ensures n < |sealed.inputs|
    ensures b64.decode(ByIndex(entries)[n].hash) == h(sealed.inputs[n])
  {
    hide ByIndex, LinkBefore;
    var entry := ByIndex(entries)[n];
    var hash, prev := b64.decode(entry.hash), b64.decode(entry.prev);
    var message := SegmentMessage(sealed.captureId, n, hash, prev).value;
    MessageNames(sealed.captureId, n, hash, prev);
    assert verifies(message, b64.decode(entry.sig));
    var contents := Contents(h, sealed);
    var i :| 0 <= i < |sealed.inputs| && message == ChainMessage(h, sealed.captureId, contents, i);
    SegmentMessageInjective(sealed.captureId, n, hash, prev, sealed.captureId, i, contents[i], LinkBefore(h, sealed.captureId, contents, i));
  }

  lemma MessageNames(captureId: Buffer, n: int, hash: Buffer, prev: Buffer)
    ensures var message := SegmentMessage(captureId, n, hash, prev);
            message.Some? ==> NamesCapture(message.value, captureId)
  {
    var message := SegmentMessage(captureId, n, hash, prev);
    if message.Some? {
      assert message.value == SEPARATOR + (captureId + (BigEndian(n, 4) + (hash + prev)));
    }
  }

  /** What a verified clip shows: GOP `k` is sealed segment `i`, its very bytes at its very instants. */
  predicate IsSealedSegment(sealed: Sealed, reading: Reading, gop: Segment)
    requires reading.Read?
  {
    && gop.index.Some? && gop.index.value < |sealed.inputs| && |sealed.timings| == |sealed.inputs|
    && gop.hashed == sealed.inputs[gop.index.value]
    && SameInstants(gop.timing, reading.timescales, sealed.timings[gop.index.value], sealed.scales)
  }

  /**
   A *verified clip* is an ordered selection of the sealed segments: strictly
   increasing indices, each GOP made of exactly the bytes sealed at its index, shown at
   exactly the sealed instants, and trimmed by no edit list.
   */
  lemma VerifiedClipIsGenuine(h: Hash, b64: Base64, verifies: Verifier, sealed: Sealed, entries: seq<SegmentEntry>, media: SignedMedia,
                              reading: Reading, labels: seq<string>, messages: iset<Buffer>)
    requires b64.Faithful() && WellSealed(sealed) && SignedOnly(h, verifies, sealed) && GenuineCore(h, b64, sealed, media)
    requires reading.Read? && WellTimed(reading.gops) && WellHashed(h, reading.gops) && TimingShape(b64, entries)
    requires InjectiveOn(h, messages) && ClipMessages(h, b64, sealed, entries, reading, messages)
    requires VerdictOf(h, b64, verifies, sealed.captureId, entries, media, true, reading, false, labels).outcome == VerifiedClip
    ensures IndicesAscend(reading.gops)
    ensures forall k | 0 <= k < |reading.gops| :: IsSealedSegment(sealed, reading, reading.gops[k])
    ensures NoEditTrims(reading)
  {
    ClipVerdictExact(h, b64, verifies, sealed.captureId, entries, media, reading, labels);
    hide VerdictOf, PresentedAsSigned, ByIndex, EntryHolds, TimingRecord, Convert, GopTimingProblem, SignedOnly, GenuineCore, EntryTimings, SealedTimings, SameInstants;
    TimingsAreSealed(h, b64, sealed, entries, media, messages);
    forall k | 0 <= k < |reading.gops|
      ensures IsSealedSegment(sealed, reading, reading.gops[k])
    {
      GopIsSealed(h, b64, verifies, sealed, entries, media, reading, k, messages);
    }
  }

  lemma GopIsSealed(h: Hash, b64: Base64, verifies: Verifier, sealed: Sealed, entries: seq<SegmentEntry>, media: SignedMedia,
                    reading: Reading, k: nat, messages: iset<Buffer>)
    requires b64.Faithful() && WellSealed(sealed) && SignedOnly(h, verifies, sealed) && GenuineCore(h, b64, sealed, media)
    requires reading.Read? && WellTimed(reading.gops) && WellHashed(h, reading.gops) && k < |reading.gops|
    requires InjectiveOn(h, messages) && ClipMessages(h, b64, sealed, entries, reading, messages)
    requires ClipAccepted(h, b64, verifies, sealed.captureId, entries, media, reading)
    requires EntryTimings(b64, entries) == SealedTimings(h, sealed.timings)
    requires Sorted(ByIndex(entries).Keys) == Range(|sealed.inputs|)
    ensures IsSealedSegment(sealed, reading, reading.gops[k])
  {
    hide ByIndex, EntryHolds, TimingRecord, Convert, SignedOnly, EditTrims, ReceivedTimingHash, SameInstants, PresentedAsSigned, TimingAuthenticated;
    var gop, signed := reading.gops[k], ByIndex(entries);
    assert Bound(b64, signed, sealed.captureId, gop);
    var n := gop.index.value;
    EntryIsSealed(h, b64, verifies, sealed, entries, n);
    assert b64.decode(b64.encode(gop.contentHash)) == gop.contentHash;
    assert gop.hashed == sealed.inputs[n];
    assert TimedAsListed(h, b64, entries, media, reading, gop);
    var received := ReceivedTimingHash(h, gop.timing, reading.timescales, sealed.scales);
    assert b64.decode(b64.encode(received.value)) == received.value;
    assert EntryTimings(b64, entries)[n] == b64.decode(signed[n].timing) by {
      assert Range(|sealed.inputs|)[n] == n;
    }
    assert SealedTimings(h, sealed.timings)[n] == RecordHash(h, sealed.timings[n]);
    EqualHashesEqualInstants(h, gop.timing, reading.timescales, sealed.timings[n], sealed.scales, messages);
  }
}

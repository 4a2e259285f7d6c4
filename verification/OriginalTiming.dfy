/**
 The original file's own timing (`originalTimingDiffers`, tools/src/verify.ts): what an
 agreement means, and that the sealed file itself is *authentic* without a mark.
 */
module OriginalTiming {
  import opened ByteStrings
  import opened Primitives
  import opened Sorting
  import opened Timing
  import opened Nal
  import opened Gops
  import opened Rescaling
  import opened Segments
  import opened Binding
  import opened Verdict
  import opened ClipSoundness
  import opened ClipCompleteness

  /** GOP `i` carries this capture's SEI of segment `n`. */
  predicate Names(read: Reading, captureId: Buffer, i: nat, n: nat)
    requires read.Read? && i < |read.gops|
  {
    read.gops[i].index == Some(n) && Ours(read.gops[i], captureId)
  }

  /** Of the first `k` GOPs, `i` alone names segment `n`. */
  ghost predicate AloneNames(read: Reading, captureId: Buffer, k: nat, i: nat, n: nat)
    requires read.Read? && k <= |read.gops|
  {
    i < k && Names(read, captureId, i, n) && forall j | 0 <= j < k && Names(read, captureId, j, n) :: j == i
  }

  /** A segment has an entry when some GOP names it, and a hash when one alone does and its timing converts. */
  lemma {:induction false} HashExact(h: Hash, read: Reading, scales: Timescales, captureId: Buffer, k: nat, n: nat)
    requires read.Read? && WellTimed(read.gops) && k <= |read.gops|
    ensures var hashes := TimingHashes(h, read, scales, captureId, k);
            && (n in hashes <==> exists i | 0 <= i < k :: Names(read, captureId, i, n))
            && (n in hashes && hashes[n].Some? ==> exists i | 0 <= i < k :: AloneNames(read, captureId, k, i, n))
            && forall i | 0 <= i < k && AloneNames(read, captureId, k, i, n) ::
                 n in hashes && hashes[n] == ReceivedTimingHash(h, read.gops[i].timing, read.timescales, scales)
  {
    hide ReceivedTimingHash, Ours;
    if k > 0 {
      HashExact(h, read, scales, captureId, k - 1, n);
      var before := TimingHashes(h, read, scales, captureId, k - 1);
      if Names(read, captureId, k - 1, n) {
        if n !in before {
          assert AloneNames(read, captureId, k, k - 1, n);
        }
      } else if n in before && before[n].Some? {
        var i :| 0 <= i < k - 1 && AloneNames(read, captureId, k - 1, i, n);
        assert AloneNames(read, captureId, k, i, n);
      }
      forall i | 0 <= i < k && AloneNames(read, captureId, k, i, n)
        ensures n in TimingHashes(h, read, scales, captureId, k)
        ensures TimingHashes(h, read, scales, captureId, k)[n] == ReceivedTimingHash(h, read.gops[i].timing, read.timescales, scales)
      {
        if i < k - 1 {
          assert AloneNames(read, captureId, k - 1, i, n);
        }
      }
    }
  }

  /** One GOP alone names segment `n`, and shows it at these instants. */
  ghost predicate ShownByOne(read: Reading, captureId: Buffer, n: nat, timing: TimingValues, scales: Timescales)
    requires read.Read?
  {
    exists i: nat | i < |read.gops| ::
      AloneNames(read, captureId, |read.gops|, i, n) && SameInstants(read.gops[i].timing, read.timescales, timing, scales)
  }

  /** Every sealed segment is named by one GOP alone, at the sealed instants. */
  ghost predicate ShownOnce(read: Reading, captureId: Buffer, timings: seq<TimingValues>, scales: Timescales)
    requires read.Read?
  {
    forall n | 0 <= n < |timings| :: ShownByOne(read, captureId, n, timings[n], scales)
  }

  /** The messages hashed for the original's own root. */
  ghost predicate OriginalMessages(h: Hash, sealed: Sealed, read: Reading, messages: iset<Buffer>)
    requires WellSealed(sealed) && read.Read? && WellTimed(read.gops)
  {
    var hashes := TimingHashes(h, read, sealed.scales, sealed.captureId, |read.gops|);
    && (AllHashed(hashes, |sealed.timings|) ==> Concat(InOrderHashes(hashes, |sealed.timings|)) in messages)
    && Concat(SealedTimings(h, sealed.timings)) in messages
    && (forall n | 0 <= n < |sealed.timings| :: TimingRecord(sealed.timings[n]).value in messages)
    && forall i | 0 <= i < |read.gops| ::
         var converted := Convert(read.gops[i].timing, read.timescales, sealed.scales);
         converted.Some? && TimingRecord(converted.value).Some? ==> TimingRecord(converted.value).value in messages
  }

  /** Against a genuine core, no difference means that every segment is there once and at its sealed instants. */
  lemma AgreementIsGenuine(h: Hash, b64: Base64, sealed: Sealed, media: SignedMedia, read: Reading, messages: iset<Buffer>)
    requires b64.Faithful() && WellSealed(sealed) && GenuineCore(h, b64, sealed, media)
    requires read.Read? && WellTimed(read.gops) && InjectiveOn(h, messages) && OriginalMessages(h, sealed, read, messages)
    requires !OriginalDiffers(h, b64, read, media.timing, sealed.captureId, media.segmentCount)
    ensures ShownOnce(read, sealed.captureId, sealed.timings, sealed.scales)
  {
    hide TimingRecord, Convert, SameInstants, ReceivedTimingHash, TimingHashes, Concat;
    var hashes := TimingHashes(h, read, sealed.scales, sealed.captureId, |read.gops|);
    var mine, theirs := InOrderHashes(hashes, |sealed.timings|), SealedTimings(h, sealed.timings);
    assert b64.decode(b64.encode(h(Concat(mine)))) == h(Concat(mine)) && b64.decode(b64.encode(h(Concat(theirs)))) == h(Concat(theirs));
    ConcatFixedWidth(mine, theirs);
    forall n | 0 <= n < |sealed.timings|
      ensures ShownByOne(read, sealed.captureId, n, sealed.timings[n], sealed.scales)
    {
      var i := ShownAt(h, read, sealed.scales, sealed.captureId, n);
      assert mine[n] == theirs[n];
      EqualHashesEqualInstants(h, read.gops[i].timing, read.timescales, sealed.timings[n], sealed.scales, messages);
    }
  }

  lemma ShownAt(h: Hash, read: Reading, scales: Timescales, captureId: Buffer, n: nat) returns (i: nat)
    requires read.Read? && WellTimed(read.gops)
    requires var hashes := TimingHashes(h, read, scales, captureId, |read.gops|); n in hashes && hashes[n].Some?
    ensures i < |read.gops| && AloneNames(read, captureId, |read.gops|, i, n)
    ensures ReceivedTimingHash(h, read.gops[i].timing, read.timescales, scales) == TimingHashes(h, read, scales, captureId, |read.gops|)[n]
  {
    hide ReceivedTimingHash, TimingHashes, Ours, AloneNames;
    HashExact(h, read, scales, captureId, |read.gops|, n);
    var alone: nat :| alone < |read.gops| && AloneNames(read, captureId, |read.gops|, alone, n);
    i := alone;
  }

  /** And when every segment is there once and at its sealed instants, nothing differs. */
  lemma ShownAgrees(h: Hash, b64: Base64, sealed: Sealed, media: SignedMedia, read: Reading)
    requires WellSealed(sealed) && GenuineCore(h, b64, sealed, media) && read.Read? && WellTimed(read.gops)
    requires ShownOnce(read, sealed.captureId, sealed.timings, sealed.scales)
    ensures !OriginalDiffers(h, b64, read, media.timing, sealed.captureId, media.segmentCount)
  {
    hide TimingRecord, Convert, SameInstants, ReceivedTimingHash, TimingHashes, Concat, AloneNames;
    var hashes := TimingHashes(h, read, sealed.scales, sealed.captureId, |read.gops|);
    forall n: nat | n < |sealed.timings|
      ensures n in hashes && hashes[n] == Some(RecordHash(h, sealed.timings[n]))
    {
      assert ShownByOne(read, sealed.captureId, n, sealed.timings[n], sealed.scales);
      var i: nat :| i < |read.gops| && AloneNames(read, sealed.captureId, |read.gops|, i, n) && SameInstants(read.gops[i].timing, read.timescales, sealed.timings[n], sealed.scales);
      HashExact(h, read, sealed.scales, sealed.captureId, |read.gops|, n);
      EqualInstantsEqualHashes(h, read.gops[i].timing, read.timescales, sealed.timings[n], sealed.scales);
    }
    assert InOrderHashes(hashes, |sealed.timings|) == SealedTimings(h, sealed.timings);
  }

  /** The original's timing agrees with a genuine core exactly when every sealed segment is there once and at its sealed instants. */
  lemma AgreementExact(h: Hash, b64: Base64, sealed: Sealed, media: SignedMedia, read: Reading, messages: iset<Buffer>)
    requires b64.Faithful() && WellSealed(sealed) && GenuineCore(h, b64, sealed, media)
    requires read.Read? && WellTimed(read.gops) && InjectiveOn(h, messages) && OriginalMessages(h, sealed, read, messages)
    ensures OriginalDiffers(h, b64, read, media.timing, sealed.captureId, media.segmentCount) <==>
            !ShownOnce(read, sealed.captureId, sealed.timings, sealed.scales)
  {
    hide OriginalDiffers, ShownOnce, GenuineCore, WellSealed, OriginalMessages;
    if ShownOnce(read, sealed.captureId, sealed.timings, sealed.scales) {
      ShownAgrees(h, b64, sealed, media, read);
    } else if !OriginalDiffers(h, b64, read, media.timing, sealed.captureId, media.segmentCount) {
      AgreementIsGenuine(h, b64, sealed, media, read, messages);
    }
  }

  // ---- the sealed file itself ----

  lemma SealedEntriesSigned(h: Hash, b64: Base64, sign: Buffer -> Buffer, captureId: Buffer, gops: seq<Segment>, scales: Timescales,
                            entries: seq<SegmentEntry>, media: SignedMedia)
    requires SealedProof(h, b64, sign, captureId, gops, scales, entries, media) && b64.Faithful()
    ensures forall e | e in entries :: IsSigned(h, b64, sign, captureId, ContentsOf(gops), e)
  {
    hide RecordHash, SealedTimings, LinkBefore, ChainEntry;
    forall e | e in entries
      ensures IsSigned(h, b64, sign, captureId, ContentsOf(gops), e)
    {
      var n: nat :| n < |entries| && entries[n] == e;
      EntryGop(h, b64, sign, captureId, ContentsOf(gops), n);
      assert e.(timing := "") == ChainEntry(h, b64, sign, captureId, ContentsOf(gops), n);
    }
  }

  lemma SealedChainComplete(h: Hash, b64: Base64, verifies: Verifier, sign: Buffer -> Buffer, captureId: Buffer, gops: seq<Segment>, scales: Timescales,
                            entries: seq<SegmentEntry>, media: SignedMedia)
    requires SealedProof(h, b64, sign, captureId, gops, scales, entries, media) && b64.Faithful() && forall m :: verifies(m, sign(m))
    ensures ChainOf(h, b64, verifies, captureId, |gops|, entries) == ChainResult(Complete, Range(|gops|))
  {
    hide ByIndex, RecordHash, SealedTimings, Sorted, LinkBefore, ChainEntry, ChainOf, Range, IsSigned;
    SealedEntries(h, b64, sign, captureId, gops, scales, entries, media);
    SealedEntriesSigned(h, b64, sign, captureId, gops, scales, entries, media);
    ByIndexKeys(entries);
    assert GopIndices(entries) == Elements(Sorted(ByIndex(entries).Keys));
    SelectionVerifies(h, b64, verifies, sign, captureId, ContentsOf(gops), entries);
  }

  /** The sealed file's own timing agrees with what was signed. */
  lemma SealedFileAgrees(h: Hash, b64: Base64, sign: Buffer -> Buffer, captureId: Buffer, gops: seq<Segment>, scales: Timescales,
                         entries: seq<SegmentEntry>, media: SignedMedia, reading: Reading)
    requires SealedProof(h, b64, sign, captureId, gops, scales, entries, media) && NamedInOrder(gops, captureId)
    requires reading.Read? && WellTimed(reading.gops) && |reading.gops| == |gops| && ShowsSegments(gops, scales, 0, reading)
    ensures !OriginalDiffers(h, b64, reading, media.timing, captureId, media.segmentCount)
  {
    hide TimingRecord, Convert, SameInstants, ReceivedTimingHash, TimingHashes, Concat, ChainEntry;
    var hashes := TimingHashes(h, reading, scales, captureId, |gops|);
    forall n: nat | n < |gops|
      ensures n in hashes && hashes[n] == Some(RecordHash(h, gops[n].timing))
    {
      assert forall i | 0 <= i < |gops| :: SameNaming(gops[i], reading.gops[i]);
      assert AloneNames(reading, captureId, |gops|, n, n);
      HashExact(h, reading, scales, captureId, |gops|, n);
      EqualInstantsEqualHashes(h, reading.gops[n].timing, reading.timescales, gops[n].timing, scales);
    }
    assert InOrderHashes(hashes, |gops|) == SealedTimings(h, TimingsOf(gops));
  }

  /**
   The sealed file itself, whose `media.hash` matches, is *authentic* with every segment
   credited, and neither its timing nor its presentation is marked.
   */
  lemma SealedFileIsAuthentic(h: Hash, b64: Base64, verifies: Verifier, sign: Buffer -> Buffer, captureId: Buffer, gops: seq<Segment>, scales: Timescales,
                              entries: seq<SegmentEntry>, media: SignedMedia, reading: Reading, labels: seq<string>)
    requires b64.Faithful() && forall m :: verifies(m, sign(m))
    requires SealedProof(h, b64, sign, captureId, gops, scales, entries, media) && NamedInOrder(gops, captureId)
    requires reading.Read? && |reading.gops| == |gops| > 0 && WellTimed(reading.gops) && ShowsSegments(gops, scales, 0, reading)
    requires !PresentationDiffers(b64, media.presentation, reading.presentation)
    ensures VerdictOf(h, b64, verifies, captureId, entries, media, true, reading, true, labels) == SegmentVerdict(Authentic, Range(|gops|), labels)
  {
    hide *;
    SealedCount(h, b64, sign, captureId, gops, scales, entries, media);
    SealedIsLocated(h, b64, sign, captureId, gops, scales, entries, media, reading);
    SealedChainComplete(h, b64, verifies, sign, captureId, gops, scales, entries, media);
    SealedTimingAuthenticated(h, b64, sign, captureId, gops, scales, entries, media);
    SealedFileAgrees(h, b64, sign, captureId, gops, scales, entries, media, reading);
    IntersectAll(Range(|gops|), Range(|gops|));
    UnmarkedOriginal(h, b64, verifies, captureId, entries, media, reading, labels, |gops|);
  }

  lemma SealedCount(h: Hash, b64: Base64, sign: Buffer -> Buffer, captureId: Buffer, gops: seq<Segment>, scales: Timescales, entries: seq<SegmentEntry>, media: SignedMedia)
    requires SealedProof(h, b64, sign, captureId, gops, scales, entries, media)
    ensures media.segmentCount == |gops|
  {
  }

  lemma SealedIsLocated(h: Hash, b64: Base64, sign: Buffer -> Buffer, captureId: Buffer, gops: seq<Segment>, scales: Timescales,
                        entries: seq<SegmentEntry>, media: SignedMedia, reading: Reading)
    requires SealedProof(h, b64, sign, captureId, gops, scales, entries, media) && NamedInOrder(gops, captureId)
    requires reading.Read? && |reading.gops| == |gops| > 0 && ShowsSegments(gops, scales, 0, reading)
    ensures BindingOf(b64, reading, captureId, entries) == Located(Range(|gops|), [])
  {
    hide AnyOurs, BindingOf, AllBound, ByIndex;
    KeptIsBound(h, b64, sign, captureId, gops, scales, entries, media, 0, reading);
    FirstIsOurs(gops, scales, captureId, reading);
    BoundInOrder(b64, captureId, entries, reading, |gops|);
  }

  lemma FirstIsOurs(gops: seq<Segment>, scales: Timescales, captureId: Buffer, reading: Reading)
    requires NamedInOrder(gops, captureId) && reading.Read? && |reading.gops| == |gops| > 0 && ShowsSegments(gops, scales, 0, reading)
    ensures AnyOurs(reading.gops, captureId)
  {
    assert SameNaming(gops[0], reading.gops[0]) && Ours(reading.gops[0], captureId);
  }

  lemma BoundInOrder(b64: Base64, captureId: Buffer, entries: seq<SegmentEntry>, reading: Reading, count: nat)
    requires reading.Read? && |reading.gops| == count && AnyOurs(reading.gops, captureId) && AllBound(b64, ByIndex(entries), captureId, reading.gops)
    requires forall k | 0 <= k < count :: reading.gops[k].index == Some(0 + k)
    ensures BindingOf(b64, reading, captureId, entries) == Located(Range(count), [])
  {
    hide ByIndex, BindingOf, AllBound, AnyOurs;
    BindingExact(b64, reading, captureId, entries);
    assert Indices(reading.gops) == Range(count);
  }

  /** The branch for a complete chain, a located file without a problem and nothing that differs. */
  lemma UnmarkedOriginal(h: Hash, b64: Base64, verifies: Verifier, captureId: Buffer, entries: seq<SegmentEntry>, media: SignedMedia, reading: Reading,
                         labels: seq<string>, count: nat)
    requires reading.Read? && WellTimed(reading.gops) && media.segmentCount == count
    requires ChainOf(h, b64, verifies, captureId, count, entries) == ChainResult(Complete, Range(count))
    requires TimingAuthenticated(h, b64, entries, media)
    requires var binding := BindingOf(b64, reading, captureId, entries); binding == Located(Range(count), [])
    requires Intersect(Range(count), Range(count)) == Range(count)
    requires !PresentationDiffers(b64, media.presentation, reading.presentation) && !OriginalDiffers(h, b64, reading, media.timing, captureId, media.segmentCount)
    ensures VerdictOf(h, b64, verifies, captureId, entries, media, true, reading, true, labels) == SegmentVerdict(Authentic, Range(count), labels)
  {
    hide ChainOf, BindingOf, EntriesComplete, EntriesRoot, PresentationDiffers, OriginalDiffers, Intersect, Range, WellTimed;
    assert labels + [] == labels;
    assert labels + [] + [] + [] == labels;
  }
}

/**
 The segment branch of `judge` (tools/src/verify.ts), decided exactly: which outcome, which
 segments credited and which labels, for every proof, every reading and either answer of
 `media.hash`, said of the entries and of the GOPs themselves.
 */
module VerdictExact {
  import opened ByteStrings
  import opened Primitives
  import opened Sorting
  import opened Timing
  import opened Nal
  import opened Gops
  import opened Segments
  import opened Binding
  import opened Verdict
  import opened ClipSoundness

  // ---- the chain, entry by entry ----

  /** What entry `n`'s signature is over, from the bytes its own fields decode to. */
  function SignedBytes(b64: Base64, captureId: Buffer, n: nat, entry: SegmentEntry): Buffer {
    SEPARATOR + captureId + BigEndian(n, 4) + b64.decode(entry.hash) + b64.decode(entry.prev)
  }

  /** The fields have the lengths a message takes. */
  predicate WellShaped(b64: Base64, captureId: Buffer, n: int, entry: SegmentEntry) {
    0 <= n < 0x1_0000_0000 && |captureId| == 16 && |b64.decode(entry.hash)| == 32 && |b64.decode(entry.prev)| == 32
  }

  /**
   Entry `n` is signed over its own fields; its link is zero at the start, the digest of its
   predecessor's signed bytes where the proof carries one, and otherwise as it comes.
   */
  predicate Intact(h: Hash, b64: Base64, verifies: Verifier, captureId: Buffer, byIndex: map<int, SegmentEntry>, n: int)
    requires n in byIndex
  {
    && WellShaped(b64, captureId, n, byIndex[n])
    && verifies(SignedBytes(b64, captureId, n, byIndex[n]), b64.decode(byIndex[n].sig))
    && (n == 0 ==> b64.decode(byIndex[n].prev) == seq(32, _ => 0))
    && (n > 0 && n - 1 in byIndex ==>
          && WellShaped(b64, captureId, n - 1, byIndex[n - 1])
          && b64.decode(byIndex[n].prev) == h(SignedBytes(b64, captureId, n - 1, byIndex[n - 1])))
  }

  /** The check of one entry, of whatever index. */
  lemma IntactExact(h: Hash, b64: Base64, verifies: Verifier, captureId: Buffer, byIndex: map<int, SegmentEntry>, n: int)
    requires n in byIndex
    ensures EntryHolds(h, b64, verifies, captureId, byIndex, n) <==> Intact(h, b64, verifies, captureId, byIndex, n)
  {
    Widths();
    hide Pow256, BigEndian;
  }

  ghost predicate AllIntact(h: Hash, b64: Base64, verifies: Verifier, captureId: Buffer, byIndex: map<int, SegmentEntry>) {
    forall n | n in byIndex :: Intact(h, b64, verifies, captureId, byIndex, n)
  }

  lemma ChainIsIntact(h: Hash, b64: Base64, verifies: Verifier, captureId: Buffer, entries: seq<SegmentEntry>)
    ensures ChainHolds(h, b64, verifies, captureId, entries) <==> AllIntact(h, b64, verifies, captureId, ByIndex(entries))
  {
    hide ByIndex, EntryHolds, Intact;
    forall n | n in ByIndex(entries)
      ensures EntryHolds(h, b64, verifies, captureId, ByIndex(entries), n) <==> Intact(h, b64, verifies, captureId, ByIndex(entries), n)
    {
      IntactExact(h, b64, verifies, captureId, ByIndex(entries), n);
    }
  }

  /** Which entry an index has: the last one that names it. */
  lemma {:induction false} LastEntryWins(entries: seq<SegmentEntry>, n: int)
    ensures n in ByIndex(entries) <==> exists i | 0 <= i < |entries| :: entries[i].gop == n
    ensures n in ByIndex(entries) ==>
              exists i | 0 <= i < |entries| :: ByIndex(entries)[n] == entries[i] && entries[i].gop == n && forall j | i < j < |entries| :: entries[j].gop != n
  {
    if |entries| > 0 {
      var most, last := entries[..|entries| - 1], entries[|entries| - 1];
      LastEntryWins(most, n);
      if last.gop == n {
        assert entries[|entries| - 1].gop == n;
      } else if n in ByIndex(most) {
        var i :| 0 <= i < |most| && ByIndex(most)[n] == most[i] && most[i].gop == n && forall j | i < j < |most| :: most[j].gop != n;
        assert entries[i] == most[i] && forall j | i < j < |most| :: entries[j] == most[j];
      }
    }
  }

  // ---- complete entries and their root ----

  /** One entry for each of the indices from 0 on, `count` of them. */
  predicate OneForEach(entries: seq<SegmentEntry>, count: int) {
    |entries| == count && GopIndices(entries) == Elements(Range(|entries|))
  }

  lemma CompleteExact(entries: seq<SegmentEntry>, count: int)
    ensures EntriesComplete(entries, count) <==> OneForEach(entries, count)
  {
    hide GopIndices;
    RangeSize(|entries|);
    if EntriesComplete(entries, count) {
      CompleteIsRange(entries, count);
      ByIndexKeys(entries);
      hide ByIndex, Sorted;
      assert Elements(Sorted(ByIndex(entries).Keys)) == ByIndex(entries).Keys;
    }
    if OneForEach(entries, count) {
      forall n | n in GopIndices(entries)
        ensures 0 <= n < count
      {
        assert n in Range(|entries|);
      }
    }
  }

  function ListedTiming(b64: Base64, entries: seq<SegmentEntry>, n: int): Buffer {
    if n in ByIndex(entries) then b64.decode(ByIndex(entries)[n].timing) else []
  }

  /** All indices have their entry, and the digest of the timing hashes listed for 0, 1, 2 and so on is not the signed root. */
  predicate RootDiffers(h: Hash, b64: Base64, entries: seq<SegmentEntry>, media: SignedMedia) {
    OneForEach(entries, media.segmentCount) && b64.encode(h(Concat(seq(|entries|, n => ListedTiming(b64, entries, n))))) != media.timing.root
  }

  lemma RootExact(h: Hash, b64: Base64, entries: seq<SegmentEntry>, media: SignedMedia)
    ensures EntriesComplete(entries, media.segmentCount) && b64.encode(EntriesRoot(h, b64, entries)) != media.timing.root <==> RootDiffers(h, b64, entries, media)
    ensures TimingAuthenticated(h, b64, entries, media) <==> OneForEach(entries, media.segmentCount) && !RootDiffers(h, b64, entries, media)
  {
    CompleteExact(entries, media.segmentCount);
    hide ByIndex, Sorted, Concat, OneForEach, GopIndices;
    if EntriesComplete(entries, media.segmentCount) {
      CompleteIsRange(entries, media.segmentCount);
      SortedKeys(ByIndex(entries));
      var listed := seq(|entries|, n => ListedTiming(b64, entries, n));
      assert |EntryTimings(b64, entries)| == |entries|;
      forall n | 0 <= n < |entries|
        ensures EntryTimings(b64, entries)[n] == listed[n]
      {
        assert Range(|entries|)[n] == n;
      }
      assert EntryTimings(b64, entries) == listed;
    }
  }

  // ---- which segments are located ----

  /** The GOP names segment `n` of this capture in an allowed shape, and the proof lists it. */
  predicate Names(signed: map<int, SegmentEntry>, captureId: Buffer, gop: Segment, n: int) {
    gop.problem.None? && gop.index.Some? && gop.index.value == n && gop.captureId == Some(captureId) && n in signed
  }

  /** One GOP alone names segment `n`, and hashes to what the proof lists. */
  ghost predicate LocatedOnce(b64: Base64, signed: map<int, SegmentEntry>, captureId: Buffer, gops: seq<Segment>, n: int) {
    exists i | 0 <= i < |gops| :: NamesAlone(signed, captureId, gops, |gops|, i, n) && b64.encode(gops[i].contentHash) == signed[n].hash
  }

  ghost predicate NamesAlone(signed: map<int, SegmentEntry>, captureId: Buffer, gops: seq<Segment>, k: nat, i: nat, n: int)
    requires k <= |gops|
  {
    i < k && Names(signed, captureId, gops[i], n) && forall j | 0 <= j < k && Names(signed, captureId, gops[j], n) :: j == i
  }

  lemma {:induction false} SeenExact(b64: Base64, signed: map<int, SegmentEntry>, captureId: Buffer, gops: seq<Segment>, k: nat, n: nat)
    requires k <= |gops|
    ensures var s := AfterGops(b64, signed, captureId, gops, k);
            && (n in s.seen ==> s.seen[n] >= 1)
            && (n in s.seen <==> exists i | 0 <= i < k :: Names(signed, captureId, gops[i], n))
            && (n in s.seen && s.seen[n] == 1 <==> exists i | 0 <= i < k :: NamesAlone(signed, captureId, gops, k, i, n))
            && (n in s.matched <==> exists i | 0 <= i < k :: Names(signed, captureId, gops[i], n) && b64.encode(gops[i].contentHash) == signed[n].hash)
  {
    if k > 0 {
      SeenExact(b64, signed, captureId, gops, k - 1, n);
      var before, gop := AfterGops(b64, signed, captureId, gops, k - 1), gops[k - 1];
      SeenStep(b64, signed, captureId, gop, k - 1, before, n);
      hide AfterGop, Names;
      if Names(signed, captureId, gop, n) {
        if n !in before.seen {
          assert NamesAlone(signed, captureId, gops, k, k - 1, n);
        }
      } else if n in before.seen && before.seen[n] == 1 {
        var i :| 0 <= i < k - 1 && NamesAlone(signed, captureId, gops, k - 1, i, n);
        assert NamesAlone(signed, captureId, gops, k, i, n);
      }
      forall i | 0 <= i < k && NamesAlone(signed, captureId, gops, k, i, n)
        ensures if i == k - 1 then n !in before.seen else NamesAlone(signed, captureId, gops, k - 1, i, n) && !Names(signed, captureId, gop, n)
      {
      }
    }
  }

  lemma SeenStep(b64: Base64, signed: map<int, SegmentEntry>, captureId: Buffer, gop: Segment, position: nat, s: BindState, n: nat)
    ensures var after := AfterGop(b64, signed, captureId, gop, position, s);
            if Names(signed, captureId, gop, n) then
              && n in after.seen && after.seen[n] == (if n in s.seen then s.seen[n] else 0) + 1
              && (n in after.matched <==> n in s.matched || b64.encode(gop.contentHash) == signed[n].hash)
            else
              && (n in after.seen <==> n in s.seen) && (n in s.seen ==> after.seen[n] == s.seen[n]) && (n in after.matched <==> n in s.matched)
  {
  }

  /** A located file's own credit: the segments located once, in order, problems or not. */
  lemma LocatedExact(b64: Base64, reading: Reading, captureId: Buffer, entries: seq<SegmentEntry>)
    requires reading.Read? && AnyOurs(reading.gops, captureId)
    ensures var binding := BindingOf(b64, reading, captureId, entries);
            && binding.Located? && Ascending(binding.verified)
            && forall n :: n in binding.verified <==> LocatedOnce(b64, ByIndex(entries), captureId, reading.gops, n)
  {
    hide AfterGops, ByIndex, Sorted;
    var gops, signed := reading.gops, ByIndex(entries);
    var s := AfterGops(b64, signed, captureId, gops, |gops|);
    var counted := CountedOnce(s.seen, s.matched);
    SortedAscends(counted);
    forall n
      ensures n in Sorted(counted) <==> LocatedOnce(b64, signed, captureId, gops, n)
    {
      assert n in Sorted(counted) <==> n in Elements(Sorted(counted));
      if n >= 0 {
        SeenExact(b64, signed, captureId, gops, |gops|, n);
      }
    }
  }

  // ---- which entries are credited ----

  /** Entry `n` is intact, and so is every entry below it. */
  ghost predicate IntactUpTo(h: Hash, b64: Base64, verifies: Verifier, captureId: Buffer, byIndex: map<int, SegmentEntry>, n: int) {
    n in byIndex && forall m | m in byIndex && m <= n :: Intact(h, b64, verifies, captureId, byIndex, m)
  }

  lemma {:induction false} PrefixEnds(h: Hash, b64: Base64, verifies: Verifier, captureId: Buffer, byIndex: map<int, SegmentEntry>, keys: seq<int>, from: nat)
    requires (forall k | k in keys :: k in byIndex) && from <= |keys|
    ensures var p := HoldingPrefix(h, b64, verifies, captureId, byIndex, keys, from);
            && (forall i | from <= i < p :: EntryHolds(h, b64, verifies, captureId, byIndex, keys[i]))
            && (p < |keys| ==> !EntryHolds(h, b64, verifies, captureId, byIndex, keys[p]))
    decreases |keys| - from
  {
    hide EntryHolds;
    if from < |keys| && EntryHolds(h, b64, verifies, captureId, byIndex, keys[from]) {
      PrefixEnds(h, b64, verifies, captureId, byIndex, keys, from + 1);
    }
  }

  /** The chain check credits the entries below the first that is not intact. */
  lemma ChainCredits(h: Hash, b64: Base64, verifies: Verifier, captureId: Buffer, count: int, entries: seq<SegmentEntry>, n: int)
    ensures n in ChainOf(h, b64, verifies, captureId, count, entries).verified <==> IntactUpTo(h, b64, verifies, captureId, ByIndex(entries), n)
  {
    hide ByIndex, EntryHolds, HoldingPrefix, Intact, Sorted, Ascending, Elements;
    var byIndex := ByIndex(entries);
    var keys := Sorted(byIndex.Keys);
    SortedKeys(byIndex);
    SortedAscends(byIndex.Keys);
    PrefixEnds(h, b64, verifies, captureId, byIndex, keys, 0);
    forall m | m in byIndex
      ensures EntryHolds(h, b64, verifies, captureId, byIndex, m) <==> Intact(h, b64, verifies, captureId, byIndex, m)
    {
      IntactExact(h, b64, verifies, captureId, byIndex, m);
    }
    var intact := iset m | m in byIndex && Intact(h, b64, verifies, captureId, byIndex, m);
    FirstBad(keys, intact, HoldingPrefix(h, b64, verifies, captureId, byIndex, keys, 0), n);
  }

  /** In an ascending list, what comes before the first bad element: the elements below which none is bad. */
  lemma FirstBad(keys: seq<int>, good: iset<int>, p: nat, n: int)
    requires Ascending(keys) && p <= |keys| && (forall i | 0 <= i < p :: keys[i] in good) && (p < |keys| ==> keys[p] !in good)
    ensures n in keys[..p] <==> n in keys && forall m | m in keys && m <= n :: m in good
  {
    assert forall i | 0 <= i < p :: keys[i] == keys[..p][i] && keys[i] in keys[..p];
    if n in keys[..p] {
      var i :| 0 <= i < p && keys[..p][i] == n;
      forall m | m in keys && m <= n
        ensures m in good
      {
        var j :| 0 <= j < |keys| && keys[j] == m;
        assert j <= i;
      }
    } else if n in keys {
      var i :| 0 <= i < |keys| && keys[i] == n;
      assert keys[p] in keys && keys[p] <= n;
    }
  }

  lemma {:induction false} IntersectExact(verified: seq<int>, chain: seq<int>)
    ensures forall n :: n in Intersect(verified, chain) <==> n in verified && n in chain
    ensures Ascending(verified) ==> Ascending(Intersect(verified, chain))
  {
    if |verified| > 0 {
      var most, last := verified[..|verified| - 1], verified[|verified| - 1];
      IntersectExact(most, chain);
      assert verified == most + [last];
      if Ascending(verified) {
        assert Ascending(most);
        var kept := Intersect(most, chain);
        forall i | 0 <= i < |kept|
          ensures kept[i] < last
        {
          assert kept[i] in kept && kept[i] in most;
          var j :| 0 <= j < |most| && most[j] == kept[i];
          assert verified[j] < verified[|most|];
        }
      }
    }
  }

  lemma ChainStatus(h: Hash, b64: Base64, verifies: Verifier, captureId: Buffer, count: int, entries: seq<SegmentEntry>)
    ensures var status := ChainOf(h, b64, verifies, captureId, count, entries).status;
            if !AllIntact(h, b64, verifies, captureId, ByIndex(entries)) then status == Tampered
            else if count >= 0 && GopIndices(entries) == Elements(Range(count)) then status == Complete
            else status == Clip
  {
    ChainExact(h, b64, verifies, captureId, count, entries);
    ChainIsIntact(h, b64, verifies, captureId, entries);
    ByIndexKeys(entries);
    hide ByIndex, HoldingPrefix, AllIntact, ChainHolds, GopIndices, Sorted;
    var keys := Sorted(ByIndex(entries).Keys);
    if count >= 0 && GopIndices(entries) == Elements(Range(count)) {
      SortedRange(GopIndices(entries), count);
    } else if |keys| == count && forall i | 0 <= i < |keys| :: keys[i] == i {
      assert keys == Range(count);
      assert Elements(keys) == GopIndices(entries);
    }
  }

  // ---- the verdict ----

  /** The verifier recomputed the segments, and found one of this capture in the file. */
  predicate Compared(recompute: bool, reading: Reading, captureId: Buffer) {
    recompute && reading.Read? && exists k | 0 <= k < |reading.gops| :: reading.gops[k].captureId == Some(captureId)
  }

  lemma ComparedIsLocated(b64: Base64, recompute: bool, reading: Reading, captureId: Buffer, entries: seq<SegmentEntry>)
    requires recompute ==> !reading.Malformed?
    ensures var binding := BindingWith(b64, recompute, reading, captureId, entries);
            && (binding.Located? <==> Compared(recompute, reading, captureId))
            && (binding.Located? ==> (binding.problems == [] <==> AllBound(b64, ByIndex(entries), captureId, reading.gops)))
  {
    if recompute && reading.Read? {
      if k :| 0 <= k < |reading.gops| && Ours(reading.gops[k], captureId) {
        assert reading.gops[k].captureId == Some(captureId);
        BindingExact(b64, reading, captureId, entries);
      } else {
        NotLocatedHere(b64, reading, captureId, entries);
      }
    }
  }

  /** The verdict is *tampered* exactly for one of these. */
  ghost predicate Broken(h: Hash, b64: Base64, verifies: Verifier, captureId: Buffer, entries: seq<SegmentEntry>, media: SignedMedia, recompute: bool, reading: Reading) {
    || (recompute && reading.Malformed?)
    || !AllIntact(h, b64, verifies, captureId, ByIndex(entries))
    || RootDiffers(h, b64, entries, media)
    || (Compared(recompute, reading, captureId) && !AllBound(b64, ByIndex(entries), captureId, reading.gops))
  }

  /**
   Tampered: a malformed container, an entry that is not intact, a complete set of entries
   without the signed root, or a located file with a GOP no entry speaks for; and in no other
   case, whatever `media.hash` says.
   */
  lemma TamperedExact(h: Hash, b64: Base64, verifies: Verifier, captureId: Buffer, entries: seq<SegmentEntry>, media: SignedMedia,
                      recompute: bool, reading: Reading, mediaMatches: bool, labels: seq<string>)
    requires reading.Read? ==> WellTimed(reading.gops)
    ensures VerdictOf(h, b64, verifies, captureId, entries, media, recompute, reading, mediaMatches, labels).outcome == TamperedFile
       <==> Broken(h, b64, verifies, captureId, entries, media, recompute, reading)
  {
    if !(recompute && reading.Malformed?) {
      ChainStatus(h, b64, verifies, captureId, media.segmentCount, entries);
      RootExact(h, b64, entries, media);
      ComparedIsLocated(b64, recompute, reading, captureId, entries);
    }
    hide ChainOf, BindingWith, EntriesComplete, EntriesRoot, PresentationDiffers, OriginalDiffers, ClipProblem, Intersect, UnboundLabel, AllBound, AllIntact, RootDiffers, Compared, ByIndex, GopIndices, Range, Elements;
  }

  /** Over the sealed bytes, once nothing is broken: *authentic* exactly when every index has an entry, else a clip of the proof. */
  lemma OriginalExact(h: Hash, b64: Base64, verifies: Verifier, captureId: Buffer, entries: seq<SegmentEntry>, media: SignedMedia,
                      recompute: bool, reading: Reading, labels: seq<string>)
    requires reading.Read? ==> WellTimed(reading.gops)
    requires !Broken(h, b64, verifies, captureId, entries, media, recompute, reading)
    ensures VerdictOf(h, b64, verifies, captureId, entries, media, recompute, reading, true, labels).outcome ==
            if media.segmentCount >= 0 && GopIndices(entries) == Elements(Range(media.segmentCount)) then Authentic else VerifiedClip
  {
    TamperedExact(h, b64, verifies, captureId, entries, media, recompute, reading, true, labels);
    ChainStatus(h, b64, verifies, captureId, media.segmentCount, entries);
    hide ChainOf, BindingWith, EntriesComplete, EntriesRoot, PresentationDiffers, OriginalDiffers, ClipProblem, Intersect, UnboundLabel, Broken, AllIntact, ByIndex, GopIndices, Range, Elements;
  }

  /** The received file shows the located segments as the core says: its tracks, its presentation and its timing. */
  ghost predicate ShownWhole(h: Hash, b64: Base64, entries: seq<SegmentEntry>, media: SignedMedia, reading: Reading)
    requires reading.Read? && WellTimed(reading.gops)
  {
    PresentedAsSigned(b64, media, reading) && OneForEach(entries, media.segmentCount) && ShownAsSigned(h, b64, entries, media, reading)
  }

  /** Over other bytes, once nothing is broken: *verified clip* exactly when segments were compared and are shown whole. */
  lemma ClipExact(h: Hash, b64: Base64, verifies: Verifier, captureId: Buffer, entries: seq<SegmentEntry>, media: SignedMedia,
                  recompute: bool, reading: Reading, labels: seq<string>)
    requires reading.Read? ==> WellTimed(reading.gops)
    requires !Broken(h, b64, verifies, captureId, entries, media, recompute, reading)
    ensures VerdictOf(h, b64, verifies, captureId, entries, media, recompute, reading, false, labels).outcome ==
            if Compared(recompute, reading, captureId) && ShownWhole(h, b64, entries, media, reading) then VerifiedClip else FramesNotCompared
  {
    TamperedExact(h, b64, verifies, captureId, entries, media, recompute, reading, false, labels);
    hide AllBound, ByIndex, VerdictOf, AllIntact, ChainHolds, RootDiffers, OneForEach, PresentedAsSigned, ShownAsSigned, TimingAuthenticated, BindingWith;
    if Compared(recompute, reading, captureId) {
      ClipVerdictExact(h, b64, verifies, captureId, entries, media, reading, labels);
      ChainIsIntact(h, b64, verifies, captureId, entries);
      RootExact(h, b64, entries, media);
      var k :| 0 <= k < |reading.gops| && reading.gops[k].captureId == Some(captureId);
      assert Ours(reading.gops[k], captureId);
      ComparedOutcome(h, b64, verifies, captureId, entries, media, recompute, reading, labels);
    } else {
      ComparedIsLocated(b64, recompute, reading, captureId, entries);
      ComparedOutcome(h, b64, verifies, captureId, entries, media, recompute, reading, labels);
    }
  }

  lemma ComparedOutcome(h: Hash, b64: Base64, verifies: Verifier, captureId: Buffer, entries: seq<SegmentEntry>, media: SignedMedia,
                        recompute: bool, reading: Reading, labels: seq<string>)
    requires reading.Read? ==> WellTimed(reading.gops)
    requires !(recompute && reading.Malformed?)
    ensures var outcome := VerdictOf(h, b64, verifies, captureId, entries, media, recompute, reading, false, labels).outcome;
            && outcome in {TamperedFile, FramesNotCompared, VerifiedClip}
            && (BindingWith(b64, recompute, reading, captureId, entries).NotLocated? ==> outcome != VerifiedClip)
  {
    hide ChainOf, BindingWith, EntriesComplete, EntriesRoot, PresentationDiffers, ClipProblem, Intersect, UnboundLabel;
  }

  /** Credited: the segments located once whose entry, and every entry below it, is intact; none where the frames were not compared. */
  lemma CreditExact(h: Hash, b64: Base64, verifies: Verifier, captureId: Buffer, entries: seq<SegmentEntry>, media: SignedMedia,
                    recompute: bool, reading: Reading, mediaMatches: bool, labels: seq<string>, n: int)
    requires reading.Read? ==> WellTimed(reading.gops)
    ensures var verdict := VerdictOf(h, b64, verifies, captureId, entries, media, recompute, reading, mediaMatches, labels);
            && Ascending(verdict.verified)
            && (n in verdict.verified <==>
                  && verdict.outcome != FramesNotCompared && Compared(recompute, reading, captureId)
                  && LocatedOnce(b64, ByIndex(entries), captureId, reading.gops, n)
                  && IntactUpTo(h, b64, verifies, captureId, ByIndex(entries), n))
  {
    if !(recompute && reading.Malformed?) {
      hide VerdictOf, BindingOf, ByIndex, ChainOf, Intersect, AllBound, LocatedOnce, IntactUpTo;
      VerifiedList(h, b64, verifies, captureId, entries, media, recompute, reading, mediaMatches, labels);
      ComparedIsLocated(b64, recompute, reading, captureId, entries);
      ChainCredits(h, b64, verifies, captureId, media.segmentCount, entries, n);
      if Compared(recompute, reading, captureId) {
        var k :| 0 <= k < |reading.gops| && reading.gops[k].captureId == Some(captureId);
        assert Ours(reading.gops[k], captureId);
        LocatedExact(b64, reading, captureId, entries);
        IntersectExact(BindingOf(b64, reading, captureId, entries).verified, ChainOf(h, b64, verifies, captureId, media.segmentCount, entries).verified);
      }
    }
  }

  lemma VerifiedList(h: Hash, b64: Base64, verifies: Verifier, captureId: Buffer, entries: seq<SegmentEntry>, media: SignedMedia,
                     recompute: bool, reading: Reading, mediaMatches: bool, labels: seq<string>)
    requires reading.Read? ==> WellTimed(reading.gops)
    requires !(recompute && reading.Malformed?)
    ensures var verdict := VerdictOf(h, b64, verifies, captureId, entries, media, recompute, reading, mediaMatches, labels);
            var binding := BindingWith(b64, recompute, reading, captureId, entries);
            verdict.verified ==
            if verdict.outcome == FramesNotCompared || binding.NotLocated? then []
            else Intersect(binding.verified, ChainOf(h, b64, verifies, captureId, media.segmentCount, entries).verified)
  {
    hide ChainOf, BindingWith, EntriesComplete, EntriesRoot, PresentationDiffers, OriginalDiffers, ClipProblem, Intersect, UnboundLabel;
  }

  // ---- the labels ----

  /** What each of the branch's labels is there for. */
  ghost predicate Marked(h: Hash, b64: Base64, captureId: Buffer, entries: seq<SegmentEntry>, media: SignedMedia,
                         recompute: bool, reading: Reading, mediaMatches: bool, mark: string)
    requires reading.Read? ==> WellTimed(reading.gops)
  {
    var read, compared := recompute && reading.Read?, Compared(recompute, reading, captureId);
    || (mark == "segment content not recomputed" && (!recompute || reading.Unreadable?))
    || (mark == "tracks not bound" && !mediaMatches && compared && HasOtherTracks(reading))
    || (mark == "presentation differs" && (if mediaMatches then read else compared && !HasOtherTracks(reading)) && !PresentedSame(b64, media, reading))
    || (mark == "timing differs" && mediaMatches && read && OriginalDiffers(h, b64, reading, media.timing, captureId, media.segmentCount))
    || (mark == "timing differs" && !mediaMatches && compared && !(OneForEach(entries, media.segmentCount) && ShownAsSigned(h, b64, entries, media, reading)))
  }

  predicate HasOtherTracks(reading: Reading)
    requires reading.Read?
  {
    reading.layout.Some? && reading.layout.value != ""
  }

  predicate PresentedSame(b64: Base64, media: SignedMedia, reading: Reading)
    requires reading.Read?
  {
    reading.presentation.Some? && SamePresentation(b64, media.presentation, reading.presentation.value)
  }

  lemma NotBroken(h: Hash, b64: Base64, verifies: Verifier, captureId: Buffer, entries: seq<SegmentEntry>, media: SignedMedia, reading: Reading)
    requires reading.Read? && Compared(true, reading, captureId)
    requires !Broken(h, b64, verifies, captureId, entries, media, true, reading)
    ensures AllBound(b64, ByIndex(entries), captureId, reading.gops) && (forall k | 0 <= k < |reading.gops| :: reading.gops[k].index.Some?)
    ensures BindingOf(b64, reading, captureId, entries).verified == Indices(reading.gops)
    ensures ChainOf(h, b64, verifies, captureId, media.segmentCount, entries).verified == Sorted(ByIndex(entries).Keys)
  {
    var k :| 0 <= k < |reading.gops| && reading.gops[k].captureId == Some(captureId);
    assert Ours(reading.gops[k], captureId);
    hide ByIndex, BindingOf, ChainOf, AllBound, RootDiffers, AllIntact, Sorted, ChainHolds;
    BindingExact(b64, reading, captureId, entries);
    ChainExact(h, b64, verifies, captureId, media.segmentCount, entries);
    ChainIsIntact(h, b64, verifies, captureId, entries);
  }

  lemma ClipProblemExact(h: Hash, b64: Base64, verifies: Verifier, captureId: Buffer, entries: seq<SegmentEntry>, media: SignedMedia, reading: Reading)
    requires reading.Read? && WellTimed(reading.gops) && Compared(true, reading, captureId)
    requires !Broken(h, b64, verifies, captureId, entries, media, true, reading)
    ensures var binding := BindingOf(b64, reading, captureId, entries);
            var verified := Intersect(binding.verified, ChainOf(h, b64, verifies, captureId, media.segmentCount, entries).verified);
            ClipProblem(h, b64, reading, media.timing, entries, verified, EntriesComplete(entries, media.segmentCount)).None? <==>
            OneForEach(entries, media.segmentCount) && ShownAsSigned(h, b64, entries, media, reading)
  {
    hide ByIndex, BindingOf, ChainOf, AllBound, TimedAsListed, Untrimmed, OneForEach, FirstTimingProblem, Intersect, Sorted, EntriesComplete, Broken, Compared, Indices, Credited;
    NotBroken(h, b64, verifies, captureId, entries, media, reading);
    CompleteExact(entries, media.segmentCount);
    AllCredited(b64, captureId, reading, entries);
    FirstProblemExact(h, b64, entries, media, reading, Indices(reading.gops), 0);
  }

  /** Once nothing is broken, a label is there exactly when it was before or marks what it says. */
  lemma LabelsExact(h: Hash, b64: Base64, verifies: Verifier, captureId: Buffer, entries: seq<SegmentEntry>, media: SignedMedia,
                    recompute: bool, reading: Reading, mediaMatches: bool, labels: seq<string>, mark: string)
    requires reading.Read? ==> WellTimed(reading.gops)
    requires !Broken(h, b64, verifies, captureId, entries, media, recompute, reading)
    ensures mark in VerdictOf(h, b64, verifies, captureId, entries, media, recompute, reading, mediaMatches, labels).labels <==>
            mark in labels || Marked(h, b64, captureId, entries, media, recompute, reading, mediaMatches, mark)
  {
    hide VerdictOf, Marked, Broken;
    if mediaMatches {
      OriginalLabels(h, b64, verifies, captureId, entries, media, recompute, reading, labels, mark);
    } else {
      ClipLabels(h, b64, verifies, captureId, entries, media, recompute, reading, labels, mark);
    }
  }

  lemma OriginalLabels(h: Hash, b64: Base64, verifies: Verifier, captureId: Buffer, entries: seq<SegmentEntry>, media: SignedMedia,
                       recompute: bool, reading: Reading, labels: seq<string>, mark: string)
    requires reading.Read? ==> WellTimed(reading.gops)
    requires !Broken(h, b64, verifies, captureId, entries, media, recompute, reading)
    ensures mark in VerdictOf(h, b64, verifies, captureId, entries, media, recompute, reading, true, labels).labels <==>
            mark in labels || Marked(h, b64, captureId, entries, media, recompute, reading, true, mark)
  {
    TamperedExact(h, b64, verifies, captureId, entries, media, recompute, reading, true, labels);
    if recompute && reading.Read? {
      PresentationExact(b64, media.presentation, reading.presentation);
    }
    hide ChainOf, BindingWith, EntriesComplete, EntriesRoot, PresentationDiffers, OriginalDiffers, ClipProblem, Intersect, Broken, SamePresentation, Compared, ClipVerdict, OneForEach, ShownAsSigned;
  }

  lemma ClipBranch(h: Hash, b64: Base64, verifies: Verifier, captureId: Buffer, entries: seq<SegmentEntry>, media: SignedMedia,
                   recompute: bool, reading: Reading, labels: seq<string>)
    requires reading.Read? ==> WellTimed(reading.gops)
    requires !(recompute && reading.Malformed?)
    requires VerdictOf(h, b64, verifies, captureId, entries, media, recompute, reading, false, labels).outcome != TamperedFile
    ensures var binding := BindingWith(b64, recompute, reading, captureId, entries);
            var verified := if binding.Located? then Intersect(binding.verified, ChainOf(h, b64, verifies, captureId, media.segmentCount, entries).verified) else [];
            && (binding.Located? ==> recompute && reading.Read?)
            && VerdictOf(h, b64, verifies, captureId, entries, media, recompute, reading, false, labels)
            == ClipVerdict(h, b64, entries, media, reading, binding, verified, labels + RecomputeLabels(recompute, reading))
  {
    LocatedIsRead(b64, recompute, reading, captureId, entries);
    hide ChainOf, BindingWith, EntriesComplete, EntriesRoot, ClipVerdict, Intersect, RecomputeLabels;
  }

  lemma ClipLabels(h: Hash, b64: Base64, verifies: Verifier, captureId: Buffer, entries: seq<SegmentEntry>, media: SignedMedia,
                   recompute: bool, reading: Reading, labels: seq<string>, mark: string)
    requires reading.Read? ==> WellTimed(reading.gops)
    requires !Broken(h, b64, verifies, captureId, entries, media, recompute, reading)
    ensures mark in VerdictOf(h, b64, verifies, captureId, entries, media, recompute, reading, false, labels).labels <==>
            mark in labels || Marked(h, b64, captureId, entries, media, recompute, reading, false, mark)
  {
    assert !(recompute && reading.Malformed?);
    hide Broken, VerdictOf, BindingWith, AllBound, ByIndex, Compared, Marked, ClipVerdict;
    TamperedExact(h, b64, verifies, captureId, entries, media, recompute, reading, false, labels);
    ClipBranch(h, b64, verifies, captureId, entries, media, recompute, reading, labels);
    ComparedIsLocated(b64, recompute, reading, captureId, entries);
    if Compared(recompute, reading, captureId) {
      ComparedLabels(h, b64, verifies, captureId, entries, media, reading, labels, mark);
    } else {
      UncomparedLabels(h, b64, captureId, entries, media, recompute, reading, labels, mark);
    }
  }

  lemma UncomparedLabels(h: Hash, b64: Base64, captureId: Buffer, entries: seq<SegmentEntry>, media: SignedMedia,
                         recompute: bool, reading: Reading, labels: seq<string>, mark: string)
    requires (reading.Read? ==> WellTimed(reading.gops)) && !Compared(recompute, reading, captureId)
    ensures mark in labels + RecomputeLabels(recompute, reading) <==> mark in labels || Marked(h, b64, captureId, entries, media, recompute, reading, false, mark)
    ensures forall binding: Binding, verified | binding.NotLocated? ::
              ClipVerdict(h, b64, entries, media, reading, binding, verified, labels + RecomputeLabels(recompute, reading)).labels == labels + RecomputeLabels(recompute, reading)
  {
    hide Compared, ShownAsSigned, OneForEach, PresentedSame, HasOtherTracks, UnboundLabel, ClipProblem;
  }

  lemma UnboundExact(b64: Base64, media: SignedMedia, reading: Reading, mark: string)
    requires reading.Read?
    ensures mark in UnboundLabel(b64, media.presentation, reading) <==>
            || (mark == "tracks not bound" && HasOtherTracks(reading))
            || (mark == "presentation differs" && !HasOtherTracks(reading) && !PresentedSame(b64, media, reading))
  {
    PresentationExact(b64, media.presentation, reading.presentation);
    hide PresentationDiffers, SamePresentation;
  }

  lemma ComparedLabels(h: Hash, b64: Base64, verifies: Verifier, captureId: Buffer, entries: seq<SegmentEntry>, media: SignedMedia,
                       reading: Reading, labels: seq<string>, mark: string)
    requires reading.Read? && WellTimed(reading.gops) && Compared(true, reading, captureId)
    requires !Broken(h, b64, verifies, captureId, entries, media, true, reading)
    ensures var binding := BindingWith(b64, true, reading, captureId, entries);
            var verified := if binding.Located? then Intersect(binding.verified, ChainOf(h, b64, verifies, captureId, media.segmentCount, entries).verified) else [];
            binding.Located? ==>
            (mark in ClipVerdict(h, b64, entries, media, reading, binding, verified, labels + RecomputeLabels(true, reading)).labels <==>
             mark in labels || Marked(h, b64, captureId, entries, media, true, reading, false, mark))
  {
    hide Broken, BindingOf, ByIndex, ChainOf, Intersect, ClipProblem, Compared, ShownAsSigned, OneForEach, PresentedSame, HasOtherTracks, UnboundLabel, EntriesComplete;
    UnboundExact(b64, media, reading, mark);
    ClipProblemExact(h, b64, verifies, captureId, entries, media, reading);
  }
}

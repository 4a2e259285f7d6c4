/**
 Every byte of a located GOP's video samples is accounted for: it is a NAL
 length prefix, or hashed in exactly one GOP, or part of the one SEI that names
 this capture (tools/src/container.ts with `bindSegments` of tools/src/verify.ts).
 */
module ByteAccounting {
  import opened ByteStrings
  import opened Primitives
  import opened SampleTables
  import opened Nal
  import opened Gops
  import opened Segments
  import opened Binding

  /** A read sample is exactly its length prefixes and its units, none of them empty. */
  lemma SampleIsItsUnits(file: Buffer, video: Track, sample: Sample)
    requires video.lengthSize > 0
    ensures UnitOf(file, video, sample).Some? ==>
              && sample.offset + sample.size <= |file|
              && Storable(UnitOf(file, video, sample).value.nals, video.lengthSize)
              && file[sample.offset..sample.offset + sample.size] == Join(UnitOf(file, video, sample).value.nals, video.lengthSize)
  {
    if UnitOf(file, video, sample).Some? {
      NalsExact(file[sample.offset..sample.offset + sample.size], video.lengthSize, UnitOf(file, video, sample).value.nals);
    }
  }

  /** Every access unit lies in one GOP and in no other. */
  lemma UnitInOneGop(units: seq<AccessUnit>, i: nat) returns (g: nat)
    requires i < |units|
    ensures var starts := Starts(units);
            && g < |starts| && starts[g] <= i < EndOf(units, starts, g)
            && forall k | 0 <= k < |starts| && starts[k] <= i < EndOf(units, starts, k) :: k == g
  {
    StartsPartition(units, |units|);
    var starts := Starts(units);
    g := 0;
    while g + 1 < |starts| && starts[g + 1] <= i
      invariant g < |starts| && starts[g] <= i
    {
      g := g + 1;
    }
    assert forall k | 0 <= k < g :: EndOf(units, starts, k) <= starts[g];
    assert forall k | g < k < |starts| :: EndOf(units, starts, g) <= starts[k];
  }

  /** The NALs of a GOP's units, one GOP after another, are the NALs of the track. */
  lemma {:induction false} NalsOfAll(units: seq<AccessUnit>, n: nat)
    requires n <= |units|
    ensures AllNals(units) == AllNals(units[..n]) + AllNals(units[n..])
    decreases |units|
  {
    if n < |units| {
      var most, last := units[..|units| - 1], units[|units| - 1];
      NalsOfAll(most, n);
      assert most[..n] == units[..n];
      var tail := units[n..];
      assert tail[..|tail| - 1] == most[n..] && tail[|tail| - 1] == last;
    } else {
      assert units[..n] == units && units[n..] == [];
    }
  }

  function WithoutAt(nals: seq<Buffer>, k: nat): seq<Buffer>
    requires k < |nals|
  {
    nals[..k] + nals[k + 1..]
  }

  /** A GOP in which no unit reads as an SEI hashes every unit. */
  lemma {:induction false} AllHashed(nals: seq<Buffer>, hevc: bool)
    requires ProblemIn(nals, hevc).None? && SeisIn(nals, hevc) == []
    ensures HashedNals(nals, hevc) == Concat(nals)
  {
    if |nals| > 0 {
      var most := nals[..|nals| - 1];
      AllHashed(most, hevc);
      ConcatPush(most, nals[|nals| - 1]);
      assert nals == most + [nals[|nals| - 1]];
    }
  }

  /**
   A GOP with no problem and one vcap SEI hashes every one of its NAL units, in
   order, but that SEI.
   */
  lemma {:induction false} HashedAllButOne(nals: seq<Buffer>, hevc: bool) returns (k: nat)
    requires ProblemIn(nals, hevc).None? && |SeisIn(nals, hevc)| == 1
    ensures k < |nals| && SeiOf(nals[k], hevc) == SeisIn(nals, hevc)[0]
    ensures forall j | 0 <= j < |nals| && j != k :: SeiOf(nals[j], hevc).NotVcap?
    ensures HashedNals(nals, hevc) == Concat(WithoutAt(nals, k))
  {
    hide SeiOf;
    var n := |nals| - 1;
    var most, last := nals[..n], nals[n];
    if SeiOf(last, hevc).Vcap? {
      k := n;
      NoneRead(most, hevc);
      AllHashed(most, hevc);
      assert WithoutAt(nals, k) == most;
    } else {
      k := HashedAllButOne(most, hevc);
      assert WithoutAt(nals, k) == WithoutAt(most, k) + [last];
      ConcatPush(WithoutAt(most, k), last);
    }
  }

  lemma {:induction false} NoneRead(nals: seq<Buffer>, hevc: bool)
    requires ProblemIn(nals, hevc).None? && SeisIn(nals, hevc) == []
    ensures forall j | 0 <= j < |nals| :: SeiOf(nals[j], hevc).NotVcap?
  {
    if |nals| > 0 {
      NoneRead(nals[..|nals| - 1], hevc);
    }
  }

  /**
   In a GOP the verifier binds, every NAL unit is hashed, in order, but one: the
   SEI that names this capture and the segment credited. After them come the
   bytes of the GOP's audio frames, and nothing else is hashed.
   */
  lemma BoundGopBytes(h: Hash, b64: Base64, signed: map<int, SegmentEntry>, captureId: Buffer, hevc: bool, units: seq<AccessUnit>, frames: seq<Frame>) returns (k: nat)
    requires |units| > 0 && AllStored(frames)
    requires Bound(b64, signed, captureId, SegmentOf(h, hevc, units, frames))
    ensures var nals, gop := AllNals(units), SegmentOf(h, hevc, units, frames);
            && k < |nals|
            && SeiOf(nals[k], hevc) == Vcap(captureId, gop.index.value)
            && (forall j | 0 <= j < |nals| && j != k :: SeiOf(nals[j], hevc).NotVcap?)
            && gop.hashed == Concat(WithoutAt(nals, k)) + FrameBytes(frames)
  {
    hide AllNals, HashedNals, ProblemIn, FrameBytes, TimingOf, SeiOf;
    k := HashedAllButOne(AllNals(units), hevc);
  }
}

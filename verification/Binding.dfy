/**
 Which signed segments a file really contains, and what a verifier says of it:
 `bindSegments`, `clipTimingProblem`, `originalTimingDiffers` and the segment
 branch of `judge` (tools/src/verify.ts).
 */
module Binding {
  import opened ByteStrings
  import opened Primitives
  import opened Sorting
  import opened Timing
  import opened Nal
  import opened Gops
  import opened Segments

  // ---- bindSegments ----

  datatype BindProblem =
    | OddSei(position: nat, reading: SeiReading)
    | NoSei(position: nat)
    | OtherCapture(position: nat)
    | ManySeis(position: nat, count: nat)
    | NotSigned(position: nat, index: nat)
    | OutOfOrder(position: nat, index: nat, previous: int)
    | ContentDiffers(index: nat)
    | Repeated(index: nat, count: nat)

  datatype Binding =
    | NotLocated(reason: string)
    | Located(verified: seq<int>, problems: seq<BindProblem>)

  predicate Ours(gop: Segment, captureId: Buffer) {
    gop.captureId == Some(captureId)
  }

  /** The variables the pass over the GOPs updates; `order` lists the keys of `seen` as they came. */
  datatype BindState = BindState(problems: seq<BindProblem>, seen: map<nat, nat>, order: seq<nat>, matched: set<nat>, previous: int)

  const NOTHING_SEEN: BindState := BindState([], map[], [], {}, -1)

  function AfterGop(b64: Base64, signed: map<int, SegmentEntry>, captureId: Buffer, gop: Segment, position: nat, s: BindState): BindState {
    if gop.problem.Some? then s.(problems := s.problems + [OddSei(position, gop.problem.value)])
    else if gop.index.None? then s.(problems := s.problems + [NoSei(position)])
    else if !Ours(gop, captureId) then s.(problems := s.problems + [OtherCapture(position)])
    else
      var n := gop.index.value;
      var many := if gop.seiCount > 1 then [ManySeis(position, gop.seiCount)] else [];
      if n !in signed then s.(problems := s.problems + many + [NotSigned(position, n)])
      else
        var disorder := if n <= s.previous then [OutOfOrder(position, n, s.previous)] else [];
        var matches := b64.encode(gop.contentHash) == signed[n].hash;
        var differs := if matches then [] else [ContentDiffers(n)];
        BindState(
          s.problems + many + disorder + differs,
          s.seen[n := (if n in s.seen then s.seen[n] else 0) + 1],
          if n in s.seen then s.order else s.order + [n],
          if matches then s.matched + {n} else s.matched,
          if n > s.previous then n else s.previous)
  }

  function AfterGops(b64: Base64, signed: map<int, SegmentEntry>, captureId: Buffer, gops: seq<Segment>, k: nat): BindState
    requires k <= |gops|
  {
    if k == 0 then NOTHING_SEEN
    else AfterGop(b64, signed, captureId, gops[k - 1], k - 1, AfterGops(b64, signed, captureId, gops, k - 1))
  }

  function RepeatedIn(seen: map<nat, nat>, order: seq<nat>): seq<BindProblem> {
    if |order| == 0 then []
    else
      var last := order[|order| - 1];
      RepeatedIn(seen, order[..|order| - 1]) + if last in seen && seen[last] > 1 then [Repeated(last, seen[last])] else []
  }

  /** The signed indices that one GOP alone names, and whose content hash that GOP reproduces. */
  function CountedOnce(seen: map<nat, nat>, matched: set<nat>): set<int> {
    set n: nat | n in matched && n in seen && seen[n] == 1 :: n as int
  }

  predicate AnyOurs(gops: seq<Segment>, captureId: Buffer) {
    exists k | 0 <= k < |gops| :: Ours(gops[k], captureId)
  }

  function BindingOf(b64: Base64, reading: Reading, captureId: Buffer, entries: seq<SegmentEntry>): Binding
    requires !reading.Malformed?
  {
    if reading.Unreadable? then NotLocated("no GOP can be located: " + reading.reason)
    else if !AnyOurs(reading.gops, captureId) then NotLocated("no GOP carries a vcap SEI naming this capture")
    else
      var s := AfterGops(b64, ByIndex(entries), captureId, reading.gops, |reading.gops|);
      Located(Sorted(CountedOnce(s.seen, s.matched)), s.problems + RepeatedIn(s.seen, s.order))
  }

  method BindSegments(b64: Base64, reading: Reading, captureId: Buffer, entries: seq<SegmentEntry>) returns (binding: Binding)
    requires !reading.Malformed?
    ensures binding == BindingOf(b64, reading, captureId, entries)
  {
    if reading.Unreadable? {
      return NotLocated("no GOP can be located: " + reading.reason);
    }
    var gops := reading.gops;
    if !AnyOurs(gops, captureId) {
      return NotLocated("no GOP carries a vcap SEI naming this capture");
    }
    hide ByIndex, Sorted, CountedOnce, RepeatedIn, AnyOurs;
    var signed := ByIndex(entries);
    var problems: seq<BindProblem> := [];
    var seen: map<nat, nat> := map[];
    var order: seq<nat> := [];
    var matched: set<nat> := {};
    var previous: int := -1;
    for position := 0 to |gops|
      invariant BindState(problems, seen, order, matched, previous) == AfterGops(b64, signed, captureId, gops, position)
    {
      var gop := gops[position];
      if gop.problem.Some? {
        problems := problems + [OddSei(position, gop.problem.value)];
        continue;
      }
      if gop.index.None? {
        problems := problems + [NoSei(position)];
        continue;
      }
      if !Ours(gop, captureId) {
        problems := problems + [OtherCapture(position)];
        continue;
      }
      var n := gop.index.value;
      if gop.seiCount > 1 {
        problems := problems + [ManySeis(position, gop.seiCount)];
      }
      if n !in signed {
        problems := problems + [NotSigned(position, n)];
        continue;
      }
      if n <= previous {
        problems := problems + [OutOfOrder(position, n, previous)];
      }
      previous := if n > previous then n else previous;
      if n !in seen {
        order := order + [n];
      }
      seen := seen[n := (if n in seen then seen[n] else 0) + 1];
      if b64.encode(gop.contentHash) == signed[n].hash {
        matched := matched + {n};
      } else {
        problems := problems + [ContentDiffers(n)];
      }
    }
    problems := ReportRepeats(problems, seen, order);
    return Located(Sorted(CountedOnce(seen, matched)), problems);
  }

  /** The second loop: every index met more than once, in the order it was first met. */
  method ReportRepeats(before: seq<BindProblem>, seen: map<nat, nat>, order: seq<nat>) returns (problems: seq<BindProblem>)
    ensures problems == before + RepeatedIn(seen, order)
  {
    problems := before;
    for i := 0 to |order|
      invariant problems == before + RepeatedIn(seen, order[..i])
    {
      assert order[..i + 1][..i] == order[..i];
      if order[i] in seen && seen[order[i]] > 1 {
        problems := problems + [Repeated(order[i], seen[order[i]])];
      }
    }
    assert order[..|order|] == order;
  }

  // ---- when a binding has no problem ----

  /** The GOP names, alone and in an allowed shape, a segment the proof signs, and hashes to its signed content hash. */
  predicate Bound(b64: Base64, signed: map<int, SegmentEntry>, captureId: Buffer, gop: Segment) {
    && gop.problem.None? && gop.index.Some? && Ours(gop, captureId) && gop.seiCount <= 1
    && gop.index.value in signed
    && b64.encode(gop.contentHash) == signed[gop.index.value].hash
  }

  ghost predicate IndicesAscend(gops: seq<Segment>) {
    forall k, l | 0 <= k < l < |gops| && gops[k].index.Some? && gops[l].index.Some? :: gops[k].index.value < gops[l].index.value
  }

  /** Every GOP is bound, at strictly increasing indices: nothing inserted, repeated, moved or relabelled. */
  ghost predicate AllBound(b64: Base64, signed: map<int, SegmentEntry>, captureId: Buffer, gops: seq<Segment>) {
    (forall k | 0 <= k < |gops| :: Bound(b64, signed, captureId, gops[k])) && IndicesAscend(gops)
  }

  function Indices(gops: seq<Segment>): seq<int>
    requires forall k | 0 <= k < |gops| :: gops[k].index.Some?
  {
    seq(|gops|, k requires 0 <= k < |gops| => gops[k].index.value)
  }

  /** What the pass has seen of GOPs that are all bound in ascending order. */
  ghost predicate CleanState(gops: seq<Segment>, k: nat, s: BindState)
    requires k <= |gops|
  {
    && s.problems == []
    && (forall i | 0 <= i < k :: gops[i].index.Some? && gops[i].index.value <= s.previous)
    && (if k == 0 then s.previous == -1 else gops[k - 1].index.Some? && s.previous == gops[k - 1].index.value)
    && (forall n :: n in s.seen <==> exists i | 0 <= i < k :: gops[i].index == Some(n))
    && (forall n | n in s.seen :: s.seen[n] == 1 && n in s.matched)
    && (forall n | n in s.matched :: n in s.seen)
    && (forall n | n in s.order :: n in s.seen)
  }

  lemma CleanStep(b64: Base64, signed: map<int, SegmentEntry>, captureId: Buffer, gops: seq<Segment>, k: nat, s: BindState)
    requires 0 < k <= |gops| && CleanState(gops, k - 1, s)
    requires Bound(b64, signed, captureId, gops[k - 1]) && gops[k - 1].index.value > s.previous
    ensures CleanState(gops, k, AfterGop(b64, signed, captureId, gops[k - 1], k - 1, s))
  {
    var gop, after := gops[k - 1], AfterGop(b64, signed, captureId, gops[k - 1], k - 1, s);
    var n := gop.index.value;
    assert n !in s.seen;
    forall m
      ensures m in after.seen <==> exists i | 0 <= i < k :: gops[i].index == Some(m)
    {
      if m == n {
        assert gops[k - 1].index == Some(m);
      }
    }
  }

  lemma NoProblemMeansBound(b64: Base64, signed: map<int, SegmentEntry>, captureId: Buffer, gop: Segment, position: nat, s: BindState)
    ensures AfterGop(b64, signed, captureId, gop, position, s).problems == [] <==>
            s.problems == [] && Bound(b64, signed, captureId, gop) && gop.index.value > s.previous
  {
  }

  lemma AllBoundPush(b64: Base64, signed: map<int, SegmentEntry>, captureId: Buffer, gops: seq<Segment>, k: nat, previous: int)
    requires 0 < k <= |gops|
    requires forall i | 0 <= i < k - 1 :: gops[i].index.Some? && gops[i].index.value <= previous
    requires if k == 1 then previous == -1 else gops[k - 2].index.Some? && previous == gops[k - 2].index.value
    ensures AllBound(b64, signed, captureId, gops[..k]) <==>
            AllBound(b64, signed, captureId, gops[..k - 1]) && Bound(b64, signed, captureId, gops[k - 1]) && gops[k - 1].index.value > previous
  {
    var now, before := gops[..k], gops[..k - 1];
    assert now == before + [gops[k - 1]];
    if AllBound(b64, signed, captureId, now) {
      assert Bound(b64, signed, captureId, now[k - 1]);
      assert forall i | 0 <= i < k - 1 :: Bound(b64, signed, captureId, now[i]);
      if k > 1 {
        assert now[k - 2].index.value < now[k - 1].index.value;
      }
    }
  }

  /** The pass reports nothing exactly when every GOP so far is bound in ascending order. */
  lemma {:induction false} CleanExact(b64: Base64, signed: map<int, SegmentEntry>, captureId: Buffer, gops: seq<Segment>, k: nat)
    requires k <= |gops|
    ensures var s := AfterGops(b64, signed, captureId, gops, k);
            && (s.problems == [] <==> AllBound(b64, signed, captureId, gops[..k]))
            && (s.problems == [] ==> CleanState(gops, k, s))
  {
    hide AfterGop, AllBound;
    if k == 0 {
      NoGops(b64, signed, captureId, gops[..0]);
    } else {
      CleanExact(b64, signed, captureId, gops, k - 1);
      var s := AfterGops(b64, signed, captureId, gops, k - 1);
      NoProblemMeansBound(b64, signed, captureId, gops[k - 1], k - 1, s);
      if s.problems == [] {
        AllBoundPush(b64, signed, captureId, gops, k, s.previous);
        if Bound(b64, signed, captureId, gops[k - 1]) && gops[k - 1].index.value > s.previous {
          CleanStep(b64, signed, captureId, gops, k, s);
        }
      } else {
        AllBoundPrefix(b64, signed, captureId, gops, k);
      }
    }
  }

  lemma NoGops(b64: Base64, signed: map<int, SegmentEntry>, captureId: Buffer, gops: seq<Segment>)
    requires gops == []
    ensures AllBound(b64, signed, captureId, gops)
  {
  }

  lemma AllBoundPrefix(b64: Base64, signed: map<int, SegmentEntry>, captureId: Buffer, gops: seq<Segment>, k: nat)
    requires 0 < k <= |gops|
    ensures AllBound(b64, signed, captureId, gops[..k]) ==> AllBound(b64, signed, captureId, gops[..k - 1])
  {
    if AllBound(b64, signed, captureId, gops[..k]) {
      assert forall i | 0 <= i < k - 1 :: gops[..k - 1][i] == gops[..k][i];
      assert forall i | 0 <= i < k - 1 :: Bound(b64, signed, captureId, gops[..k][i]);
    }
  }

  lemma {:induction false} NothingRepeated(seen: map<nat, nat>, order: seq<nat>)
    requires forall n | n in order :: n in seen ==> seen[n] == 1
    ensures RepeatedIn(seen, order) == []
  {
    if |order| > 0 {
      NothingRepeated(seen, order[..|order| - 1]);
    }
  }

  /**
   A located file has no problem exactly when every GOP of it is bound, at strictly
   increasing indices; the segments credited are then those indices.
   */
  lemma BindingExact(b64: Base64, reading: Reading, captureId: Buffer, entries: seq<SegmentEntry>)
    requires reading.Read? && AnyOurs(reading.gops, captureId)
    ensures var binding := BindingOf(b64, reading, captureId, entries);
            && binding.Located?
            && (binding.problems == [] <==> AllBound(b64, ByIndex(entries), captureId, reading.gops))
            && (binding.problems == [] ==>
                  (forall k | 0 <= k < |reading.gops| :: reading.gops[k].index.Some?) && binding.verified == Indices(reading.gops))
  {
    hide Bound, AfterGop, AfterGops, ByIndex;
    var gops, signed := reading.gops, ByIndex(entries);
    var s := AfterGops(b64, signed, captureId, gops, |gops|);
    assert gops[..|gops|] == gops;
    CleanExact(b64, signed, captureId, gops, |gops|);
    if s.problems == [] {
      NothingRepeated(s.seen, s.order);
      CountedIndices(gops, s);
    }
  }

  lemma CountedIndices(gops: seq<Segment>, s: BindState)
    requires CleanState(gops, |gops|, s) && IndicesAscend(gops)
    ensures forall k | 0 <= k < |gops| :: gops[k].index.Some?
    ensures Sorted(CountedOnce(s.seen, s.matched)) == Indices(gops)
  {
    var list := Indices(gops);
    var counted := CountedOnce(s.seen, s.matched);
    forall n | n in counted
      ensures n in list
    {
      var m: nat := n;
      assert m in s.seen;
      var i :| 0 <= i < |gops| && gops[i].index == Some(m);
      assert list[i] == n;
    }
    forall i | 0 <= i < |list|
      ensures list[i] in counted
    {
      var m: nat := list[i];
      assert gops[i].index == Some(m);
      assert m in s.seen;
    }
    assert Elements(list) == counted;
    SortedAscends(counted);
    AscendingUnique(Sorted(counted), list);
  }
}

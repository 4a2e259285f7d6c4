/** `stripC2paFromJpeg` (tools/src/canonical.ts) step by step, against the canonical bytes. */
module JpegCanonical {
  import opened ByteStrings
  import opened Jpeg
  import opened Canonical
  import opened JpegReader
  import opened JpegStrip

  /** Segments one behind the other, from `at` on. */
  predicate Ordered(segs: seq<Found>, at: nat, limit: nat) {
    if |segs| == 0 then at <= limit
    else at <= segs[0].start < segs[0].end <= limit && Ordered(segs[1..], segs[0].end, limit)
  }

  lemma OrderedFrom(segs: seq<Found>, at: nat, from: nat, limit: nat)
    requires Ordered(segs, from, limit) && at <= from
    ensures Ordered(segs, at, limit)
  {
  }

  lemma {:induction false} OrderedAt(segs: seq<Found>, at: nat, limit: nat, k: nat)
    requires Ordered(segs, at, limit) && k < |segs|
    ensures at <= segs[k].start < segs[k].end <= limit
    ensures Ordered(segs[k + 1..], segs[k].end, limit)
  {
    if k > 0 {
      OrderedAt(segs[1..], segs[0].end, limit, k - 1);
      assert segs[1..][k - 1] == segs[k];
      assert segs[1..][k..] == segs[k + 1..];
    }
  }

  lemma StartsDiffer(segs: seq<Found>, at: nat, limit: nat, j: nat, k: nat)
    requires Ordered(segs, at, limit) && j < k < |segs|
    ensures segs[j].start < segs[k].start
  {
    OrderedAt(segs, at, limit, j);
    OrderedAt(segs[j + 1..], segs[j].end, limit, k - j - 1);
  }

  lemma OrderedInRange(jpeg: Buffer, segs: seq<Found>, at: nat)
    requires Ordered(segs, at, |jpeg|)
    ensures InRange(jpeg, segs)
  {
    forall k | 0 <= k < |segs|
      ensures segs[k].start <= segs[k].end <= |jpeg|
    {
      OrderedAt(segs, at, |jpeg|, k);
    }
  }

  /** The file less the segments that begin in `dropped`, from `at` on. */
  function CutOut(jpeg: Buffer, segs: seq<Found>, dropped: set<nat>, at: nat): Buffer
    requires Ordered(segs, at, |jpeg|)
  {
    if |segs| == 0 then jpeg[at..]
    else if segs[0].start in dropped then jpeg[at..segs[0].start] + CutOut(jpeg, segs[1..], dropped, segs[0].end)
    else
      OrderedFrom(segs[1..], at, segs[0].end, |jpeg|);
      CutOut(jpeg, segs[1..], dropped, at)
  }

  /** From `at` on the file is these pieces and this tail. */
  predicate Lies(jpeg: Buffer, pieces: seq<Piece>, tail: Buffer, at: nat) {
    at <= |jpeg| && jpeg[at..] == Join(pieces) + tail
  }

  lemma LiesNext(jpeg: Buffer, pieces: seq<Piece>, tail: Buffer, at: nat)
    requires Lies(jpeg, pieces, tail, at) && |pieces| > 0
    ensures var end := at + |pieces[0].bytes|;
            end <= |jpeg| && jpeg[at..end] == pieces[0].bytes && Lies(jpeg, pieces[1..], tail, end)
  {
    var first, rest := pieces[0].bytes, Join(pieces[1..]) + tail;
    assert jpeg[at..] == first + rest;
    assert jpeg[at..at + |first|] == jpeg[at..][..|first|];
    assert jpeg[at + |first|..] == jpeg[at..][|first|..];
  }

  lemma {:induction false} PositionsOrdered(jpeg: Buffer, pieces: seq<Piece>, tail: Buffer, at: nat)
    requires Lies(jpeg, pieces, tail, at)
    ensures Ordered(Positions(pieces, at), at, |jpeg|)
  {
    if |pieces| > 0 {
      LiesNext(jpeg, pieces, tail, at);
      var end := at + |pieces[0].bytes|;
      PositionsOrdered(jpeg, pieces[1..], tail, end);
      hide Lies;
      var rest := Positions(pieces[1..], end);
      OrderedFrom(rest, at, end, |jpeg|);
      if pieces[0].Segment? && |pieces[0].bytes| >= 2 {
        var s := Found(pieces[0].bytes[1], at, end);
        assert ([s] + rest)[1..] == rest;
      } else {
        assert [] + rest == rest;
      }
    }
  }

  /** What begins in `dropped` are the segments of these pieces that are to go. */
  ghost predicate Marks(jpeg: Buffer, segs: seq<Found>, all: seq<Piece>, dropped: set<nat>) {
    InRange(jpeg, segs) && forall k | 0 <= k < |segs| :: segs[k].start in dropped <==> Dropped(all, PieceAt(jpeg, segs[k]))
  }

  /** The first piece, given the cut copy of the rest. */
  lemma CutOutFirst(jpeg: Buffer, pieces: seq<Piece>, tail: Buffer, all: seq<Piece>, dropped: set<nat>, at: nat, p: nat, end: nat, q: nat)
    requires |pieces| > 0 && WellFormed(pieces[0]) && end == p + |pieces[0].bytes| <= |jpeg| && at <= p && jpeg[p..end] == pieces[0].bytes
    requires q == if Dropped(all, pieces[0]) then end else at
    requires pieces[0].Segment? ==> (p in dropped <==> Dropped(all, pieces[0]))
    requires Ordered(Positions(pieces[1..], end), end, |jpeg|) && Ordered(Positions(pieces[1..], end), q, |jpeg|)
    requires CutOut(jpeg, Positions(pieces[1..], end), dropped, q) == jpeg[q..end] + Join(Strip(pieces[1..], all)) + tail
    ensures Ordered(Positions(pieces, p), at, |jpeg|)
    ensures CutOut(jpeg, Positions(pieces, p), dropped, at) == jpeg[at..p] + Join(Strip(pieces, all)) + tail
  {
    var first := pieces[0];
    var rest := Positions(pieces[1..], end);
    FirstLength(first);
    PositionsHead(first, pieces, p);
    StripHead(pieces, all);
    OrderedFrom(rest, at, end, |jpeg|);
    SkipStays(all, first);
    hide WellFormed, Dropped, Positions, Strip, Join;
    KeptBytes(jpeg, at, p, end, Join(Strip(pieces[1..], all)), tail);
    DroppedBytes(jpeg, at, p, end, Join(Strip(pieces[1..], all)), tail);
    if first.Segment? {
      CutStep(jpeg, Found(first.bytes[1], p, end), rest, dropped, at);
    }
    hide CutOut, Ordered;
  }

  lemma FirstLength(p: Piece)
    requires WellFormed(p)
    ensures |p.bytes| > 0 && (p.Segment? ==> |p.bytes| >= 4)
  {
    hide ReadBigEndian;
  }

  /** The cut copy is the pieces that stay. */
  lemma {:induction false} CutOutIs(jpeg: Buffer, pieces: seq<Piece>, tail: Buffer, all: seq<Piece>, dropped: set<nat>, at: nat, p: nat)
    requires Lies(jpeg, pieces, tail, p) && at <= p && AllWellFormed(pieces) && Marks(jpeg, Positions(pieces, p), all, dropped)
    ensures Ordered(Positions(pieces, p), at, |jpeg|)
    ensures CutOut(jpeg, Positions(pieces, p), dropped, at) == jpeg[at..p] + Join(Strip(pieces, all)) + tail
  {
    if |pieces| == 0 {
      NothingToCut(jpeg, tail, all, dropped, at, p);
      assert pieces == [];
    } else {
      LiesNext(jpeg, pieces, tail, p);
      RestWellFormed(pieces);
      var end := p + |pieces[0].bytes|;
      MarksRest(jpeg, pieces, all, dropped, p);
      hide Lies, WellFormed, AllWellFormed, Dropped, Marks, Positions, Strip, Join, CutOut, Ordered;
      PositionsOrdered(jpeg, pieces[1..], tail, end);
      var q := if Dropped(all, pieces[0]) then end else at;
      CutOutIs(jpeg, pieces[1..], tail, all, dropped, q, end);
      CutOutFirst(jpeg, pieces, tail, all, dropped, at, p, end, q);
    }
  }

  lemma RestWellFormed(pieces: seq<Piece>)
    requires AllWellFormed(pieces) && |pieces| > 0
    ensures WellFormed(pieces[0]) && AllWellFormed(pieces[1..])
  {
    hide WellFormed;
    assert forall i | 0 <= i < |pieces[1..]| :: pieces[1..][i] == pieces[i + 1];
  }

  lemma NothingToCut(jpeg: Buffer, tail: Buffer, all: seq<Piece>, dropped: set<nat>, at: nat, p: nat)
    requires Lies(jpeg, [], tail, p) && at <= p
    ensures Ordered(Positions([], p), at, |jpeg|) && CutOut(jpeg, Positions([], p), dropped, at) == jpeg[at..p] + Join(Strip([], all)) + tail
  {
    assert jpeg[at..] == jpeg[at..p] + jpeg[p..];
  }

  lemma KeptBytes(jpeg: Buffer, at: nat, p: nat, end: nat, joined: Buffer, tail: Buffer)
    requires at <= p <= end <= |jpeg|
    ensures jpeg[at..end] + joined + tail == jpeg[at..p] + (jpeg[p..end] + joined) + tail
  {
  }

  lemma DroppedBytes(jpeg: Buffer, at: nat, p: nat, end: nat, joined: Buffer, tail: Buffer)
    requires at <= p <= end <= |jpeg|
    ensures jpeg[at..p] + (jpeg[end..end] + joined + tail) == jpeg[at..p] + ([] + joined) + tail
  {
  }

  lemma PositionsHead(first: Piece, pieces: seq<Piece>, p: nat)
    requires |pieces| > 0 && first == pieces[0] && WellFormed(first)
    ensures Positions(pieces, p) ==
            (if first.Segment? then [Found(first.bytes[1], p, p + |first.bytes|)] else []) + Positions(pieces[1..], p + |first.bytes|)
    ensures first.Skip? ==> Positions(pieces, p) == Positions(pieces[1..], p + |first.bytes|)
  {
    hide ReadBigEndian;
  }

  lemma CutStep(jpeg: Buffer, s: Found, rest: seq<Found>, dropped: set<nat>, at: nat)
    requires at <= s.start < s.end <= |jpeg| && Ordered(rest, s.end, |jpeg|) && Ordered(rest, at, |jpeg|)
    ensures Ordered([s] + rest, at, |jpeg|)
    ensures CutOut(jpeg, [s] + rest, dropped, at)
         == if s.start in dropped then jpeg[at..s.start] + CutOut(jpeg, rest, dropped, s.end) else CutOut(jpeg, rest, dropped, at)
  {
    assert ([s] + rest)[1..] == rest;
  }

  lemma SkipStays(all: seq<Piece>, p: Piece)
    ensures p.Skip? ==> !Dropped(all, p)
  {
  }

  lemma StripHead(pieces: seq<Piece>, all: seq<Piece>)
    requires |pieces| > 0
    ensures Join(Strip(pieces, all)) == (if Dropped(all, pieces[0]) then [] else pieces[0].bytes) + Join(Strip(pieces[1..], all))
  {
    hide Dropped;
    var rest := Strip(pieces[1..], all);
    JoinFirst(pieces[0], rest);
    assert [] + rest == rest;
  }

  lemma MarksRest(jpeg: Buffer, pieces: seq<Piece>, all: seq<Piece>, dropped: set<nat>, p: nat)
    requires |pieces| > 0 && WellFormed(pieces[0]) && Marks(jpeg, Positions(pieces, p), all, dropped)
    requires var end := p + |pieces[0].bytes|; end <= |jpeg| && jpeg[p..end] == pieces[0].bytes
    ensures Marks(jpeg, Positions(pieces[1..], p + |pieces[0].bytes|), all, dropped)
    ensures pieces[0].Segment? ==> (p in dropped <==> Dropped(all, pieces[0]))
  {
    hide Dropped;
    var end := p + |pieces[0].bytes|;
    var segs, rest := Positions(pieces, p), Positions(pieces[1..], end);
    if pieces[0].Segment? {
      assert segs[0] == Found(pieces[0].bytes[1], p, end) && PieceAt(jpeg, segs[0]) == pieces[0];
      forall k | 0 <= k < |rest|
        ensures rest[k].start <= rest[k].end <= |jpeg| && (rest[k].start in dropped <==> Dropped(all, PieceAt(jpeg, rest[k])))
      {
        assert segs[k + 1] == rest[k];
      }
    } else {
      assert segs == rest;
    }
  }

  // ---- groups and box types agree ----

  lemma {:induction false} PacketsInCons(jpeg: Buffer, s: Found, rest: seq<Found>, n: nat, en: nat)
    requires s.start <= s.end <= |jpeg| && InRange(jpeg, [s] + rest) && InRange(jpeg, rest) && n <= |rest|
    ensures PacketsIn(jpeg, [s] + rest, n + 1, en)
         == (if InBox(PieceAt(jpeg, s), en) then [PacketAt(jpeg, s)] else []) + PacketsIn(jpeg, rest, n, en)
  {
    hide InBox, PieceAt, PacketAt;
    if n == 0 {
      assert ([s] + rest)[0] == s;
      assert PacketsIn(jpeg, [s] + rest, 0, en) == [];
    } else {
      PacketsInCons(jpeg, s, rest, n - 1, en);
      hide InRange;
      assert ([s] + rest)[n] == rest[n - 1];
      var first := if InBox(PieceAt(jpeg, s), en) then [PacketAt(jpeg, s)] else [];
      var last := if InBox(PieceAt(jpeg, rest[n - 1]), en) then [PacketAt(jpeg, rest[n - 1])] else [];
      JoinedThree(first, PacketsIn(jpeg, rest, n - 1, en), last);
    }
  }

  lemma FirstTypeStep(jpeg: Buffer, first: Piece, pieces: seq<Piece>, p: nat, end: nat, rest: seq<Found>, en: nat)
    requires first.Segment? && |first.bytes| >= 4 && p <= end <= |jpeg| && jpeg[p..end] == first.bytes && InRange(jpeg, rest)
    requires FirstType(PacketsIn(jpeg, rest, |rest|, en)) == TypeOf(pieces, en)
    ensures var segs := [Found(first.bytes[1], p, end)] + rest;
            InRange(jpeg, segs) && FirstType(PacketsIn(jpeg, segs, |segs|, en)) == TypeOf([first] + pieces, en)
  {
    var s := Found(first.bytes[1], p, end);
    ThisPacket(jpeg, first, s);
    InRangeCons(jpeg, s, rest);
    hide PieceAt, PacketAt, IsJumbf, En, Z, Packet, PacketType, InRange;
    PacketsInCons(jpeg, s, rest, |rest|, en);
    TypeOfCons(first, pieces, en);
    hide PacketsIn, TypeOf, InBox;
    FirstTypeCons(PacketAt(jpeg, s), PacketsIn(jpeg, rest, |rest|, en));
  }

  lemma ThisPacket(jpeg: Buffer, first: Piece, s: Found)
    requires first.Segment? && s.start <= s.end <= |jpeg| && jpeg[s.start..s.end] == first.bytes
    ensures PieceAt(jpeg, s) == first && PacketAt(jpeg, s).z == Z(first) && PacketAt(jpeg, s).packet == Packet(first)
  {
    hide Z, Packet;
  }

  lemma InRangeCons(jpeg: Buffer, s: Found, rest: seq<Found>)
    requires InRange(jpeg, rest) && s.start <= s.end <= |jpeg|
    ensures InRange(jpeg, [s] + rest)
  {
  }

  /** A box's type is read from the same packet, by groups and by pieces. */
  lemma {:induction false} FirstTypeIs(jpeg: Buffer, pieces: seq<Piece>, tail: Buffer, en: nat, p: nat)
    requires Lies(jpeg, pieces, tail, p) && AllWellFormed(pieces) && InRange(jpeg, Positions(pieces, p))
    ensures FirstType(PacketsIn(jpeg, Positions(pieces, p), |Positions(pieces, p)|, en)) == TypeOf(pieces, en)
  {
    if |pieces| == 0 {
      NoTypes(jpeg, p, en);
      assert pieces == [];
    } else {
      LiesNext(jpeg, pieces, tail, p);
      RestWellFormed(pieces);
      FirstLength(pieces[0]);
      var first, end := pieces[0], p + |pieces[0].bytes|;
      PositionsHead(first, pieces, p);
      hide WellFormed, AllWellFormed, Lies, Positions, Ordered, PacketType, InRange, PacketsIn, FirstType, TypeOf;
      PositionsOrdered(jpeg, pieces[1..], tail, end);
      OrderedInRange(jpeg, Positions(pieces[1..], end), end);
      Uncons(pieces);
      TypeOfCons(first, pieces[1..], en);
      FirstTypeIs(jpeg, pieces[1..], tail, en, end);
      SkipInNoBox(first, en);
      hide InBox, Z, Packet;
      if first.Segment? {
        FirstTypeStep(jpeg, first, pieces[1..], p, end, Positions(pieces[1..], end), en);
      }
    }
  }

  lemma SkipInNoBox(p: Piece, en: nat)
    ensures !p.Segment? ==> !InBox(p, en)
  {
  }

  lemma NoTypes(jpeg: Buffer, p: nat, en: nat)
    ensures Positions([], p) == [] && FirstType(PacketsIn(jpeg, [], 0, en)) == TypeOf([], en)
  {
  }

  lemma FirstTypeCons(first: JumbfPacket, rest: seq<JumbfPacket>)
    ensures FirstType([first] + rest) == if first.z == Some(1) then PacketType(first.packet) else FirstType(rest)
    ensures FirstType([] + rest) == FirstType(rest)
  {
    hide PacketType;
    assert ([first] + rest)[1..] == rest;
    assert [] + rest == rest;
  }

  // ---- the strip ----

  ghost predicate StartsHere(g: Group, start: nat) {
    exists y | 0 <= y < |g.segments| :: g.segments[y].start == start
  }

  /** Where the packets of the first `n` groups begin that are not content. */
  ghost predicate IsDropList(groups: seq<Group>, n: nat, dropped: set<nat>)
    requires n <= |groups|
  {
    forall start: nat :: start in dropped <==> exists x | 0 <= x < n :: Excluded(groups[x].boxType) && StartsHere(groups[x], start)
  }

  method DropList(groups: seq<Group>) returns (dropped: set<nat>)
    ensures IsDropList(groups, |groups|, dropped)
  {
    hide Excluded;
    dropped := {};
    for x := 0 to |groups|
      invariant IsDropList(groups, x, dropped)
    {
      if !Excluded(groups[x].boxType) {
        continue;
      }
      ghost var before := dropped;
      for y := 0 to |groups[x].segments|
        invariant forall start: nat :: start in dropped <==> start in before || exists j | 0 <= j < y :: groups[x].segments[j].start == start
      {
        dropped := dropped + {groups[x].segments[y].start};
      }
    }
  }

  /** A segment is on the list exactly when the pieces say it goes. */
  lemma ListMarks(jpeg: Buffer, pieces: seq<Piece>, tail: Buffer, p: nat, groups: seq<Group>, dropped: set<nat>)
    requires Lies(jpeg, pieces, tail, p) && AllWellFormed(pieces) && InRange(jpeg, Positions(pieces, p))
    requires var segs := Positions(pieces, p); GroupsFit(jpeg, segs, |segs|, groups) && Typed(groups)
    requires IsDropList(groups, |groups|, dropped)
    ensures Marks(jpeg, Positions(pieces, p), pieces, dropped)
  {
    var segs := Positions(pieces, p);
    forall k | 0 <= k < |segs|
      ensures segs[k].start in dropped <==> Dropped(pieces, PieceAt(jpeg, segs[k]))
    {
      if segs[k].start in dropped {
        ListedGoes(jpeg, pieces, tail, p, groups, dropped, k);
      }
      if Dropped(pieces, PieceAt(jpeg, segs[k])) {
        GoesListed(jpeg, pieces, tail, p, groups, dropped, k);
      }
    }
  }

  /** The segment a packet of a group was read from. */
  lemma PacketsSegment(jpeg: Buffer, segs: seq<Found>, g: Group, y: nat) returns (j: nat)
    requires InRange(jpeg, segs) && HoldsItsPackets(jpeg, segs, |segs|, g) && y < |g.segments|
    ensures j < |segs| && g.segments[y].start == segs[j].start
    ensures IsJumbf(PieceAt(jpeg, segs[j])) && En(PieceAt(jpeg, segs[j])) == g.en
  {
    hide IsJumbf, En, PieceAt, PacketAt, PacketsIn, IsLoose;
    if g.en.Some? {
      j := PacketFrom(jpeg, segs, |segs|, g.en.value, g.segments[y]);
    } else {
      j := LooseSegment(jpeg, segs, g);
    }
    PacketStart(jpeg, segs[j]);
  }

  lemma LooseSegment(jpeg: Buffer, segs: seq<Found>, g: Group) returns (j: nat)
    requires InRange(jpeg, segs) && IsLoose(jpeg, segs, |segs|, g)
    ensures j < |segs| && g.segments == [PacketAt(jpeg, segs[j])]
    ensures IsJumbf(PieceAt(jpeg, segs[j])) && En(PieceAt(jpeg, segs[j])).None?
  {
    hide IsJumbf, En, PieceAt, PacketAt, PacketsIn;
    j :| 0 <= j < |segs| && IsJumbf(PieceAt(jpeg, segs[j])) && En(PieceAt(jpeg, segs[j])).None? && g.segments == [PacketAt(jpeg, segs[j])];
  }

  lemma SameStart(jpeg: Buffer, pieces: seq<Piece>, tail: Buffer, p: nat, j: nat, k: nat)
    requires Lies(jpeg, pieces, tail, p)
    requires var segs := Positions(pieces, p); j < |segs| && k < |segs| && segs[j].start == segs[k].start
    ensures j == k
  {
    PositionsOrdered(jpeg, pieces, tail, p);
    hide Lies, Positions;
    var segs := Positions(pieces, p);
    if j < k {
      StartsDiffer(segs, p, |jpeg|, j, k);
    } else if k < j {
      StartsDiffer(segs, p, |jpeg|, k, j);
    }
  }

  /** The type a group was given is the one the pieces give its box. */
  lemma GroupType(jpeg: Buffer, pieces: seq<Piece>, tail: Buffer, p: nat, groups: seq<Group>, x: nat)
    requires Lies(jpeg, pieces, tail, p) && AllWellFormed(pieces) && InRange(jpeg, Positions(pieces, p))
    requires var segs := Positions(pieces, p); GroupsFit(jpeg, segs, |segs|, groups) && Typed(groups)
    requires x < |groups|
    ensures groups[x].en.Some? ==> groups[x].boxType == TypeOf(pieces, groups[x].en.value)
    ensures groups[x].en.None? ==> groups[x].boxType == None
  {
    var segs := Positions(pieces, p);
    assert HoldsItsPackets(jpeg, segs, |segs|, groups[x]);
    if groups[x].en.Some? {
      FirstTypeIs(jpeg, pieces, tail, groups[x].en.value, p);
    } else {
      LooseHasNoType(jpeg, segs, groups[x]);
    }
  }

  lemma LooseHasNoType(jpeg: Buffer, segs: seq<Found>, g: Group)
    requires InRange(jpeg, segs) && IsLoose(jpeg, segs, |segs|, g)
    ensures FirstType(g.segments) == None
  {
    hide IsJumbf, PacketType, ReadBigEndian;
  }

  lemma ListedGoes(jpeg: Buffer, pieces: seq<Piece>, tail: Buffer, p: nat, groups: seq<Group>, dropped: set<nat>, k: nat)
    requires Lies(jpeg, pieces, tail, p) && AllWellFormed(pieces) && InRange(jpeg, Positions(pieces, p))
    requires var segs := Positions(pieces, p); GroupsFit(jpeg, segs, |segs|, groups) && Typed(groups)
    requires IsDropList(groups, |groups|, dropped) && k < |Positions(pieces, p)| && Positions(pieces, p)[k].start in dropped
    ensures Dropped(pieces, PieceAt(jpeg, Positions(pieces, p)[k]))
  {
    hide Lies, AllWellFormed, Positions, Typed, IsJumbf, En, PieceAt, TypeOf, HoldsItsPackets, OneABox, AllGrouped, PacketAt, InRange;
    var segs := Positions(pieces, p);
    var x: nat :| x < |groups| && Excluded(groups[x].boxType) && StartsHere(groups[x], segs[k].start);
    var y: nat :| y < |groups[x].segments| && groups[x].segments[y].start == segs[k].start;
    var j := PacketsSegment(jpeg, segs, groups[x], y);
    SameStart(jpeg, pieces, tail, p, j, k);
    GroupType(jpeg, pieces, tail, p, groups, x);
  }

  lemma GoesListed(jpeg: Buffer, pieces: seq<Piece>, tail: Buffer, p: nat, groups: seq<Group>, dropped: set<nat>, k: nat)
    requires Lies(jpeg, pieces, tail, p) && AllWellFormed(pieces) && InRange(jpeg, Positions(pieces, p))
    requires var segs := Positions(pieces, p); GroupsFit(jpeg, segs, |segs|, groups) && Typed(groups)
    requires IsDropList(groups, |groups|, dropped) && k < |Positions(pieces, p)| && Dropped(pieces, PieceAt(jpeg, Positions(pieces, p)[k]))
    ensures Positions(pieces, p)[k].start in dropped
  {
    var segs := Positions(pieces, p);
    var x, y := ItsGroup(jpeg, segs, groups, k);
    hide Lies, AllWellFormed, Positions, GroupsFit, Typed, IsJumbf, En, PieceAt, TypeOf, PacketAt, InRange;
    GroupType(jpeg, pieces, tail, p, groups, x);
    assert StartsHere(groups[x], segs[k].start);
  }

  lemma PacketStart(jpeg: Buffer, s: Found)
    requires s.start <= s.end <= |jpeg|
    ensures PacketAt(jpeg, s).start == s.start
  {
  }

  lemma ItsGroup(jpeg: Buffer, segs: seq<Found>, groups: seq<Group>, k: nat) returns (x: nat, y: nat)
    requires InRange(jpeg, segs) && AllGrouped(jpeg, segs, |segs|, groups) && k < |segs| && IsJumbf(PieceAt(jpeg, segs[k]))
    ensures x < |groups| && groups[x].en == En(PieceAt(jpeg, segs[k]))
    ensures y < |groups[x].segments| && groups[x].segments[y].start == segs[k].start
  {
    assert IsGrouped(jpeg, segs[k], groups);
    PacketStart(jpeg, segs[k]);
    hide IsJumbf, En, PieceAt, PacketAt, AllGrouped, InRange;
    x :| 0 <= x < |groups| && groups[x].en == En(PieceAt(jpeg, segs[k])) && PacketAt(jpeg, segs[k]) in groups[x].segments;
    y :| 0 <= y < |groups[x].segments| && groups[x].segments[y] == PacketAt(jpeg, segs[k]);
  }

  /** The copy loop: stretches between the dropped segments. */
  lemma Onward(done: Buffer, part: Buffer, rest: Buffer)
    ensures done + (part + rest) == done + part + rest
  {
  }

  method CopyKept(jpeg: Buffer, segs: seq<Found>, dropped: set<nat>) returns (out: Buffer)
    requires Ordered(segs, 0, |jpeg|)
    ensures out == CutOut(jpeg, segs, dropped, 0)
  {
    var kept: seq<Buffer> := [];
    var at: nat := 0;
    assert segs[0..] == segs && Concat(kept) == [];
    hide CutOut, Ordered, Concat;
    for k := 0 to |segs|
      invariant at <= |jpeg| && Ordered(segs[k..], at, |jpeg|)
      invariant Concat(kept) + CutOut(jpeg, segs[k..], dropped, at) == CutOut(jpeg, segs, dropped, 0)
    {
      var s := segs[k];
      NextSegment(jpeg, segs, at, k);
      CutStep(jpeg, s, segs[k + 1..], dropped, at);
      if s.start !in dropped {
        continue;
      }
      ConcatPush(kept, jpeg[at..s.start]);
      Onward(Concat(kept), jpeg[at..s.start], CutOut(jpeg, segs[k + 1..], dropped, s.end));
      kept := kept + [jpeg[at..s.start]];
      at := s.end;
    }
    NothingLeft(jpeg, segs, dropped, at);
    ConcatPush(kept, jpeg[at..]);
    kept := kept + [jpeg[at..]];
    out := Concat(kept);
  }

  lemma NextSegment(jpeg: Buffer, segs: seq<Found>, at: nat, k: nat)
    requires k < |segs| && Ordered(segs[k..], at, |jpeg|)
    ensures segs[k..] == [segs[k]] + segs[k + 1..] && at <= segs[k].start < segs[k].end <= |jpeg|
    ensures Ordered(segs[k + 1..], segs[k].end, |jpeg|) && Ordered(segs[k + 1..], at, |jpeg|)
  {
    assert segs[k..] == [segs[k]] + segs[k + 1..] && segs[k..][1..] == segs[k + 1..];
    OrderedFrom(segs[k + 1..], at, segs[k].end, |jpeg|);
  }

  lemma NothingLeft(jpeg: Buffer, segs: seq<Found>, dropped: set<nat>, at: nat)
    requires at <= |jpeg|
    ensures Ordered(segs[|segs|..], at, |jpeg|) && CutOut(jpeg, segs[|segs|..], dropped, at) == jpeg[at..]
  {
  }

  /** The strip gives the canonical bytes, or fails on a malformed JPEG. */
  method StripC2paFromJpeg(jpeg: Buffer) returns (out: Option<Buffer>)
    ensures out == CanonicalJpeg(jpeg)
  {
    var found := JpegSegments(jpeg);
    if found.None? {
      return None;
    }
    var segs := found.value;
    SegmentsOrdered(jpeg);
    var groups := JumbfGroups(jpeg, segs);
    var dropped := DropList(groups);
    var copy := CopyKept(jpeg, segs, dropped);
    out := Some(copy);
    CopyIsCanonical(jpeg, groups, dropped);
  }

  lemma SegmentsOrdered(jpeg: Buffer)
    requires SegmentsIn(jpeg).Some?
    ensures Ordered(SegmentsIn(jpeg).value, 0, |jpeg|) && InRange(jpeg, SegmentsIn(jpeg).value)
    ensures |jpeg| >= 2 ==> var w := Walk(jpeg[2..]); w.Walked? && Lies(jpeg, w.pieces, w.tail, 2) && AllWellFormed(w.pieces)
  {
    if |jpeg| >= 2 {
      WalkParts(jpeg[2..]);
      hide Walk, AllWellFormed, Ordered;
      var w := Walk(jpeg[2..]);
      PositionsOrdered(jpeg, w.pieces, w.tail, 2);
      OrderedFrom(Positions(w.pieces, 2), 0, 2, |jpeg|);
      OrderedInRange(jpeg, Positions(w.pieces, 2), 2);
    }
  }

  lemma CopyIsCanonical(jpeg: Buffer, groups: seq<Group>, dropped: set<nat>)
    requires SegmentsIn(jpeg).Some? && Ordered(SegmentsIn(jpeg).value, 0, |jpeg|) && InRange(jpeg, SegmentsIn(jpeg).value)
    requires var segs := SegmentsIn(jpeg).value; GroupsFit(jpeg, segs, |segs|, groups) && Typed(groups)
    requires IsDropList(groups, |groups|, dropped)
    ensures CanonicalJpeg(jpeg) == Some(CutOut(jpeg, SegmentsIn(jpeg).value, dropped, 0))
  {
    SegmentsOrdered(jpeg);
    hide Walk, AllWellFormed, Ordered, Positions, GroupsFit, Typed, IsDropList, Strip, Join, Marks, Lies, InRange;
    if |jpeg| < 2 {
      assert jpeg[0..] == jpeg;
    } else {
      var w := Walk(jpeg[2..]);
      ListMarks(jpeg, w.pieces, w.tail, 2, groups, dropped);
      CutOutIs(jpeg, w.pieces, w.tail, w.pieces, dropped, 0, 2);
      hide CutOut;
      assert jpeg[0..2] == jpeg[..2];
    }
  }
}

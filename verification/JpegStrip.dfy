/**
 JUMBF groups and the canonical copy (tools/src/jumbf.ts, tools/src/canonical.ts), by
 positions: groups are filled in place as segments are met, and the dropped segments
 are left out of one pass over the file.
 */
module JpegStrip {
  import opened ByteStrings
  import opened Jpeg
  import opened Canonical
  import opened JpegReader

  datatype JumbfPacket = JumbfPacket(start: nat, end: nat, z: Option<nat>, packet: Buffer)

  /** A box: its packets in file order; `boxType` is read at the end. */
  datatype Group = Group(en: Option<nat>, boxType: Option<Buffer>, segments: seq<JumbfPacket>)

  predicate InRange(jpeg: Buffer, segs: seq<Found>) {
    forall k | 0 <= k < |segs| :: segs[k].start <= segs[k].end <= |jpeg|
  }

  function PieceAt(jpeg: Buffer, s: Found): Piece
    requires s.start <= s.end <= |jpeg|
  {
    Segment(jpeg[s.start..s.end])
  }

  function PacketAt(jpeg: Buffer, s: Found): JumbfPacket
    requires s.start <= s.end <= |jpeg|
  {
    JumbfPacket(s.start, s.end, Z(PieceAt(jpeg, s)), Packet(PieceAt(jpeg, s)))
  }

  /** The packets of box `en` among the first `n` segments. */
  function PacketsIn(jpeg: Buffer, segs: seq<Found>, n: nat, en: nat): seq<JumbfPacket>
    requires InRange(jpeg, segs) && n <= |segs|
  {
    if n == 0 then []
    else PacketsIn(jpeg, segs, n - 1, en) + if InBox(PieceAt(jpeg, segs[n - 1]), en) then [PacketAt(jpeg, segs[n - 1])] else []
  }

  function FirstType(packets: seq<JumbfPacket>): Option<Buffer> {
    if |packets| == 0 then None
    else if packets[0].z == Some(1) then PacketType(packets[0].packet)
    else FirstType(packets[1..])
  }

  /** A group without a number: one segment too short to carry one. */
  ghost predicate IsLoose(jpeg: Buffer, segs: seq<Found>, n: nat, g: Group)
    requires InRange(jpeg, segs) && n <= |segs|
  {
    exists k | 0 <= k < n :: IsJumbf(PieceAt(jpeg, segs[k])) && En(PieceAt(jpeg, segs[k])).None? && g.segments == [PacketAt(jpeg, segs[k])]
  }

  ghost predicate IsGrouped(jpeg: Buffer, s: Found, groups: seq<Group>)
    requires s.start <= s.end <= |jpeg|
  {
    exists x | 0 <= x < |groups| :: groups[x].en == En(PieceAt(jpeg, s)) && PacketAt(jpeg, s) in groups[x].segments
  }

  /** The groups of the first `n` segments: one a number, each with all its packets, and every JUMBF segment in one. */
  ghost predicate GroupsFit(jpeg: Buffer, segs: seq<Found>, n: nat, groups: seq<Group>)
    requires InRange(jpeg, segs) && n <= |segs|
  {
    OneABox(groups) && Filled(jpeg, segs, n, groups) && AllGrouped(jpeg, segs, n, groups)
  }

  ghost predicate OneABox(groups: seq<Group>) {
    forall x, y | 0 <= x < y < |groups| && groups[x].en.Some? :: groups[x].en != groups[y].en
  }

  ghost predicate HoldsItsPackets(jpeg: Buffer, segs: seq<Found>, n: nat, g: Group)
    requires InRange(jpeg, segs) && n <= |segs|
  {
    if g.en.Some? then g.segments == PacketsIn(jpeg, segs, n, g.en.value) else IsLoose(jpeg, segs, n, g)
  }

  ghost predicate Filled(jpeg: Buffer, segs: seq<Found>, n: nat, groups: seq<Group>)
    requires InRange(jpeg, segs) && n <= |segs|
  {
    forall x | 0 <= x < |groups| :: HoldsItsPackets(jpeg, segs, n, groups[x])
  }

  ghost predicate AllGrouped(jpeg: Buffer, segs: seq<Found>, n: nat, groups: seq<Group>)
    requires InRange(jpeg, segs) && n <= |segs|
  {
    forall k | 0 <= k < n && IsJumbf(PieceAt(jpeg, segs[k])) :: IsGrouped(jpeg, segs[k], groups)
  }

  /** The first group of box `en`, or past the last. */
  method FindGroup(groups: seq<Group>, en: nat) returns (at: nat)
    ensures at <= |groups| && (forall x | 0 <= x < at :: groups[x].en != Some(en))
    ensures at < |groups| ==> groups[at].en == Some(en)
  {
    at := 0;
    while at < |groups| && groups[at].en != Some(en)
      invariant at <= |groups| && forall x | 0 <= x < at :: groups[x].en != Some(en)
    {
      at := at + 1;
    }
  }

  lemma PacketsHaveAGroup(jpeg: Buffer, segs: seq<Found>, n: nat, groups: seq<Group>, en: nat)
    requires InRange(jpeg, segs) && n <= |segs| && GroupsFit(jpeg, segs, n, groups)
    ensures PacketsIn(jpeg, segs, n, en) != [] ==> exists x | 0 <= x < |groups| :: groups[x].en == Some(en)
  {
    if PacketsIn(jpeg, segs, n, en) != [] {
      var k := PacketFrom(jpeg, segs, n, en, PacketsIn(jpeg, segs, n, en)[0]);
      assert IsGrouped(jpeg, segs[k], groups);
    }
  }

  lemma {:induction false} PacketFrom(jpeg: Buffer, segs: seq<Found>, n: nat, en: nat, p: JumbfPacket) returns (k: nat)
    requires InRange(jpeg, segs) && n <= |segs| && p in PacketsIn(jpeg, segs, n, en)
    ensures k < n && InBox(PieceAt(jpeg, segs[k]), en) && p == PacketAt(jpeg, segs[k])
  {
    hide InBox, PieceAt;
    if p in PacketsIn(jpeg, segs, n - 1, en) {
      k := PacketFrom(jpeg, segs, n - 1, en, p);
    } else {
      k := n - 1;
    }
  }

  /** A group that gets nothing of the next segment holds its packets all the same. */
  lemma HoldsStill(jpeg: Buffer, segs: seq<Found>, n: nat, g: Group)
    requires InRange(jpeg, segs) && n < |segs| && HoldsItsPackets(jpeg, segs, n, g)
    requires g.en.Some? ==> !InBox(PieceAt(jpeg, segs[n]), g.en.value)
    ensures HoldsItsPackets(jpeg, segs, n + 1, g)
  {
    hide InBox, PieceAt, IsJumbf, En, PacketAt;
  }

  lemma FitsAnother(jpeg: Buffer, segs: seq<Found>, n: nat, groups: seq<Group>)
    requires InRange(jpeg, segs) && n < |segs| && GroupsFit(jpeg, segs, n, groups)
    requires !IsJumbf(PieceAt(jpeg, segs[n]))
    ensures GroupsFit(jpeg, segs, n + 1, groups)
  {
    hide IsJumbf, En, PieceAt, IsGrouped, OneABox, HoldsItsPackets;
    forall x | 0 <= x < |groups|
      ensures HoldsItsPackets(jpeg, segs, n + 1, groups[x])
    {
      HoldsStill(jpeg, segs, n, groups[x]);
    }
  }

  /** Segments grouped so far stay so, and with the next one all are. */
  lemma GroupedStill(jpeg: Buffer, segs: seq<Found>, n: nat, groups: seq<Group>, more: seq<Group>)
    requires InRange(jpeg, segs) && n < |segs| && AllGrouped(jpeg, segs, n, groups) && IsGrouped(jpeg, segs[n], more) && |groups| <= |more|
    requires forall x | 0 <= x < |groups| :: more[x].en == groups[x].en && groups[x].segments <= more[x].segments
    ensures AllGrouped(jpeg, segs, n + 1, more)
  {
    hide IsJumbf, PieceAt, IsGrouped;
    forall k | 0 <= k < n + 1 && IsJumbf(PieceAt(jpeg, segs[k]))
      ensures IsGrouped(jpeg, segs[k], more)
    {
      if k < n {
        StaysGrouped(jpeg, segs[k], groups, more);
      }
    }
  }

  lemma OneABoxMore(groups: seq<Group>, g: Group)
    requires OneABox(groups) && forall x | 0 <= x < |groups| && groups[x].en.Some? :: groups[x].en != g.en
    ensures OneABox(groups + [g])
  {
  }

  lemma FitsLoose(jpeg: Buffer, segs: seq<Found>, n: nat, groups: seq<Group>, packet: JumbfPacket)
    requires InRange(jpeg, segs) && n < |segs| && GroupsFit(jpeg, segs, n, groups)
    requires IsJumbf(PieceAt(jpeg, segs[n])) && En(PieceAt(jpeg, segs[n])).None? && packet == PacketAt(jpeg, segs[n])
    ensures GroupsFit(jpeg, segs, n + 1, groups + [Group(None, None, [packet])])
  {
    hide IsJumbf, En, PieceAt, PacketAt, OneABox, AllGrouped, HoldsItsPackets, IsGrouped;
    var g := Group(None, None, [packet]);
    var more := groups + [g];
    OneABoxMore(groups, g);
    LooseHolds(jpeg, segs, n, g);
    GroupedLoose(jpeg, segs[n], more, packet);
    GroupedStill(jpeg, segs, n, groups, more);
    forall x | 0 <= x < |more|
      ensures HoldsItsPackets(jpeg, segs, n + 1, more[x])
    {
      if x < |groups| {
        HoldsStill(jpeg, segs, n, groups[x]);
      }
    }
  }

  lemma LooseHolds(jpeg: Buffer, segs: seq<Found>, n: nat, g: Group)
    requires InRange(jpeg, segs) && n < |segs| && g.en.None? && g.segments == [PacketAt(jpeg, segs[n])]
    requires IsJumbf(PieceAt(jpeg, segs[n])) && En(PieceAt(jpeg, segs[n])).None?
    ensures HoldsItsPackets(jpeg, segs, n + 1, g)
  {
    hide IsJumbf, En, PieceAt, PacketAt;
  }

  lemma GroupedLoose(jpeg: Buffer, s: Found, groups: seq<Group>, packet: JumbfPacket)
    requires s.start <= s.end <= |jpeg| && En(PieceAt(jpeg, s)).None? && packet == PacketAt(jpeg, s)
    requires |groups| > 0 && groups[|groups| - 1].en.None? && groups[|groups| - 1].segments == [packet]
    ensures IsGrouped(jpeg, s, groups)
  {
    hide En, PieceAt, PacketAt;
    assert packet in groups[|groups| - 1].segments;
  }

  lemma StaysGrouped(jpeg: Buffer, s: Found, groups: seq<Group>, more: seq<Group>)
    requires s.start <= s.end <= |jpeg| && IsGrouped(jpeg, s, groups) && |groups| <= |more|
    requires forall x | 0 <= x < |groups| :: more[x].en == groups[x].en && groups[x].segments <= more[x].segments
    ensures IsGrouped(jpeg, s, more)
  {
    hide En, PacketAt, PieceAt;
    var x :| 0 <= x < |groups| && groups[x].en == En(PieceAt(jpeg, s)) && PacketAt(jpeg, s) in groups[x].segments;
    assert PacketAt(jpeg, s) in more[x].segments;
  }

  /** The groups after a packet of box `en`: added to the box's group, or a new one. */
  function Joined(groups: seq<Group>, at: nat, en: nat, packet: JumbfPacket): seq<Group>
    requires at <= |groups|
  {
    if at < |groups| then groups[at := groups[at].(segments := groups[at].segments + [packet])]
    else groups + [Group(Some(en), None, [packet])]
  }

  lemma FitsJoined(jpeg: Buffer, segs: seq<Found>, n: nat, groups: seq<Group>, at: nat, en: nat, packet: JumbfPacket)
    requires InRange(jpeg, segs) && n < |segs| && GroupsFit(jpeg, segs, n, groups)
    requires InBox(PieceAt(jpeg, segs[n]), en) && packet == PacketAt(jpeg, segs[n])
    requires at <= |groups| && (forall x | 0 <= x < at :: groups[x].en != Some(en)) && (at < |groups| ==> groups[at].en == Some(en))
    ensures GroupsFit(jpeg, segs, n + 1, Joined(groups, at, en, packet))
  {
    var more := Joined(groups, at, en, packet);
    JoinsBox(jpeg, segs[n], groups, at, en, packet);
    OneABoxJoined(groups, at, en, packet);
    PacketsHaveAGroup(jpeg, segs, n, groups, en);
    hide InBox, PieceAt, PacketAt, OneABox, AllGrouped, IsGrouped, HoldsItsPackets;
    GroupedStill(jpeg, segs, n, groups, more);
    forall x | 0 <= x < |more|
      ensures HoldsItsPackets(jpeg, segs, n + 1, more[x])
    {
      if x == at {
        BoxHolds(jpeg, segs, n, groups, at, en, packet);
      } else {
        OthersHold(jpeg, segs, n, groups, at, en, x);
      }
    }
  }

  lemma BoxHolds(jpeg: Buffer, segs: seq<Found>, n: nat, groups: seq<Group>, at: nat, en: nat, packet: JumbfPacket)
    requires InRange(jpeg, segs) && n < |segs| && Filled(jpeg, segs, n, groups)
    requires InBox(PieceAt(jpeg, segs[n]), en) && packet == PacketAt(jpeg, segs[n])
    requires at <= |groups| && (if at < |groups| then groups[at].en == Some(en) else PacketsIn(jpeg, segs, n, en) == [])
    ensures HoldsItsPackets(jpeg, segs, n + 1, Joined(groups, at, en, packet)[at])
  {
    hide InBox, PieceAt, PacketAt, IsLoose;
    if at < |groups| {
      assert HoldsItsPackets(jpeg, segs, n, groups[at]);
    }
  }

  lemma OthersHold(jpeg: Buffer, segs: seq<Found>, n: nat, groups: seq<Group>, at: nat, en: nat, x: nat)
    requires InRange(jpeg, segs) && n < |segs| && Filled(jpeg, segs, n, groups) && OneABox(groups)
    requires InBox(PieceAt(jpeg, segs[n]), en)
    requires at <= |groups| && (forall y | 0 <= y < at :: groups[y].en != Some(en)) && (at < |groups| ==> groups[at].en == Some(en))
    requires x < |groups| && x != at
    ensures HoldsItsPackets(jpeg, segs, n + 1, groups[x])
  {
    hide PieceAt, IsJumbf, En, HoldsItsPackets;
    assert groups[x].en != Some(en);
    assert HoldsItsPackets(jpeg, segs, n, groups[x]);
    HoldsStill(jpeg, segs, n, groups[x]);
  }

  lemma OneABoxJoined(groups: seq<Group>, at: nat, en: nat, packet: JumbfPacket)
    requires OneABox(groups) && at <= |groups| && (forall x | 0 <= x < at :: groups[x].en != Some(en)) && (at < |groups| ==> groups[at].en == Some(en))
    ensures OneABox(Joined(groups, at, en, packet))
    ensures var more := Joined(groups, at, en, packet);
            |groups| <= |more| && forall x | 0 <= x < |groups| :: more[x].en == groups[x].en && groups[x].segments <= more[x].segments
  {
  }

  lemma JoinsBox(jpeg: Buffer, s: Found, groups: seq<Group>, at: nat, en: nat, packet: JumbfPacket)
    requires s.start <= s.end <= |jpeg| && at <= |groups| && (at < |groups| ==> groups[at].en == Some(en))
    requires InBox(PieceAt(jpeg, s), en) && packet == PacketAt(jpeg, s)
    ensures IsGrouped(jpeg, s, Joined(groups, at, en, packet))
  {
    hide IsJumbf, En, PieceAt, PacketAt;
    var more := Joined(groups, at, en, packet);
    assert more[at].en == Some(en) && packet in more[at].segments;
  }

  /** Each group's type read from its first packet with sequence number 1. */
  ghost predicate Typed(groups: seq<Group>) {
    forall x | 0 <= x < |groups| :: groups[x].boxType == FirstType(groups[x].segments)
  }

  method ReadType(packets: seq<JumbfPacket>) returns (boxType: Option<Buffer>)
    ensures boxType == FirstType(packets)
  {
    hide PacketType;
    var i := 0;
    while i < |packets| && packets[i].z != Some(1)
      invariant i <= |packets| && FirstType(packets[i..]) == FirstType(packets)
    {
      assert packets[i..][1..] == packets[i + 1..];
      i := i + 1;
    }
    boxType := if i < |packets| then PacketType(packets[i].packet) else None;
  }

  method JumbfGroups(jpeg: Buffer, segs: seq<Found>) returns (groups: seq<Group>)
    requires InRange(jpeg, segs)
    ensures GroupsFit(jpeg, segs, |segs|, groups) && Typed(groups)
  {
    hide IsJumbf, En, PieceAt, Z, Packet, GroupsFit, PacketType;
    groups := [];
    NoGroups(jpeg, segs);
    for n := 0 to |segs|
      invariant GroupsFit(jpeg, segs, n, groups)
    {
      var piece := PieceAt(jpeg, segs[n]);
      if !IsJumbf(piece) {
        FitsAnother(jpeg, segs, n, groups);
        continue;
      }
      var packet := JumbfPacket(segs[n].start, segs[n].end, Z(piece), Packet(piece));
      if En(piece).None? {
        FitsLoose(jpeg, segs, n, groups, packet);
        groups := groups + [Group(None, None, [packet])];
      } else {
        var en := En(piece).value;
        var at := FindGroup(groups, en);
        FitsJoined(jpeg, segs, n, groups, at, en, packet);
        if at < |groups| {
          groups := groups[at := groups[at].(segments := groups[at].segments + [packet])];
        } else {
          groups := groups + [Group(Some(en), None, [packet])];
        }
      }
    }
    var count := |groups|;
    for x := 0 to count
      invariant |groups| == count && GroupsFit(jpeg, segs, |segs|, groups) && Typed(groups[..x])
    {
      var boxType := ReadType(groups[x].segments);
      FitsTyped(jpeg, segs, groups, x, boxType);
      ghost var before := groups;
      groups := groups[x := groups[x].(boxType := boxType)];
      assert groups[..x] == before[..x];
    }
    assert groups[..count] == groups;
  }

  lemma NoGroups(jpeg: Buffer, segs: seq<Found>)
    requires InRange(jpeg, segs)
    ensures GroupsFit(jpeg, segs, 0, [])
  {
  }

  lemma FitsTyped(jpeg: Buffer, segs: seq<Found>, groups: seq<Group>, x: nat, boxType: Option<Buffer>)
    requires InRange(jpeg, segs) && GroupsFit(jpeg, segs, |segs|, groups) && x < |groups|
    ensures GroupsFit(jpeg, segs, |segs|, groups[x := groups[x].(boxType := boxType)])
  {
    hide IsJumbf, En, PieceAt, PacketAt, IsGrouped, PacketsIn, IsLoose;
    var more := groups[x := groups[x].(boxType := boxType)];
    assert OneABox(more);
    hide OneABox;
    assert Filled(jpeg, segs, |segs|, more) by {
      HoldsTyped(jpeg, segs, groups[x], boxType);
    }
    hide HoldsItsPackets;
    forall k | 0 <= k < |segs| && IsJumbf(PieceAt(jpeg, segs[k]))
      ensures IsGrouped(jpeg, segs[k], more)
    {
      StaysGrouped(jpeg, segs[k], groups, more);
    }
  }

  lemma HoldsTyped(jpeg: Buffer, segs: seq<Found>, g: Group, boxType: Option<Buffer>)
    requires InRange(jpeg, segs) && HoldsItsPackets(jpeg, segs, |segs|, g)
    ensures HoldsItsPackets(jpeg, segs, |segs|, g.(boxType := boxType))
  {
    hide IsJumbf, En, PieceAt, PacketAt, PacketsIn;
  }
}

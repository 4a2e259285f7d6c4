/** The canonical bytes of a JPEG (tools/src/canonical.ts): its pieces less the C2PA segments. */
module Canonical {
  import opened ByteStrings
  import opened Jpeg

  /** The canonical bytes; none when the JPEG is malformed. */
  function CanonicalJpeg(jpeg: Buffer): Option<Buffer> {
    if |jpeg| < 2 then Some(jpeg)
    else
      var w := Walk(jpeg[2..]);
      if w.Malformed? then None else Some(jpeg[..2] + Join(Strip(w.pieces, w.pieces)) + w.tail)
  }

  /** The marker walk reaches SOS. */
  predicate ReachesSos(jpeg: Buffer) {
    |jpeg| >= 2 && var w := Walk(jpeg[2..]); w.Walked? && AtSos(w.tail)
  }

  lemma CanonicalImage(start: Buffer, pieces: seq<Piece>, tail: Buffer)
    requires |start| == 2 && AllWellFormed(pieces) && AtSos(tail)
    ensures ReachesSos(start + Join(pieces) + tail)
    ensures CanonicalJpeg(start + Join(pieces) + tail) == Some(start + Join(Strip(pieces, pieces)) + tail)
  {
    hide Walk, Strip, AllWellFormed, AtSos;
    var jpeg := start + Join(pieces) + tail;
    WalkBack(pieces, tail);
    assert jpeg[2..] == Join(pieces) + tail;
    assert jpeg[..2] == start;
  }

  /** Canonical bytes are their own canonical bytes, and the walk reaches SOS in them too. */
  lemma CanonicalTwice(jpeg: Buffer)
    requires ReachesSos(jpeg)
    ensures CanonicalJpeg(jpeg).Some?
    ensures ReachesSos(CanonicalJpeg(jpeg).value) && CanonicalJpeg(CanonicalJpeg(jpeg).value) == CanonicalJpeg(jpeg)
  {
    hide Walk, Strip, WellFormed, AtSos;
    var w := Walk(jpeg[2..]);
    WalkParts(jpeg[2..]);
    StripKeeps(w.pieces, w.pieces);
    StripTwice(w.pieces);
    CanonicalImage(jpeg[..2], Strip(w.pieces, w.pieces), w.tail);
  }

  // ---- a fixed point exactly ----

  /**
   A fill byte is the last piece kept, and the three bytes the file ends in would read,
   behind it, as a segment whose length is wrong.
   */
  predicate Spoils(kept: seq<Piece>, tail: Buffer) {
    && |kept| > 0 && kept[|kept| - 1] == Skip([0xff])
    && |tail| == 3 && tail[0] != 0xff && !IsLengthless(tail[0]) && tail[0] != SOS
    && ReadBigEndian(tail[1..3]) != 2
  }

  /** The JUMBF segments among the pieces. */
  function Jumbfs(pieces: seq<Piece>): seq<Piece> {
    if |pieces| == 0 then []
    else (if IsJumbf(pieces[0]) then [pieces[0]] else []) + Jumbfs(pieces[1..])
  }

  lemma JumbfsCons(first: Piece, rest: seq<Piece>)
    ensures Jumbfs([first] + rest) == (if IsJumbf(first) then [first] else []) + Jumbfs(rest)
  {
    hide IsJumbf;
    assert ([first] + rest)[1..] == rest;
  }

  lemma {:induction false} TypeOfJumbfs(pieces: seq<Piece>, en: nat)
    ensures TypeOf(Jumbfs(pieces), en) == TypeOf(pieces, en)
  {
    hide IsJumbf, En, Z, PacketType, Packet;
    if |pieces| > 0 {
      TypeOfJumbfs(pieces[1..], en);
      TypeOfCons(pieces[0], Jumbfs(pieces[1..]), en);
      Uncons(pieces);
      TypeOfCons(pieces[0], pieces[1..], en);
      assert [] + Jumbfs(pieces[1..]) == Jumbfs(pieces[1..]);
    }
  }

  lemma {:induction false} InJumbfs(pieces: seq<Piece>, p: Piece)
    ensures p in Jumbfs(pieces) <==> p in pieces && IsJumbf(p)
  {
    hide IsJumbf;
    if |pieces| > 0 {
      InJumbfs(pieces[1..], p);
      Uncons(pieces);
    }
  }

  /** Pieces without a JUMBF segment to drop stay as they are. */
  lemma StripSameJumbfs(pieces: seq<Piece>, kept: seq<Piece>)
    requires Jumbfs(pieces) == Jumbfs(kept) && forall p | p in kept :: !Dropped(kept, p)
    ensures Strip(pieces, pieces) == pieces
  {
    hide IsJumbf, En, TypeOf, Jumbfs, Strip;
    forall p | p in pieces
      ensures !Dropped(pieces, p)
    {
      InJumbfs(pieces, p);
      InJumbfs(kept, p);
      if IsJumbf(p) && En(p).Some? {
        TypeOfJumbfs(pieces, En(p).value);
        TypeOfJumbfs(kept, En(p).value);
      }
    }
    StripNothing(pieces, pieces);
  }

  /** A piece that is not a lone fill byte is taken whole whenever four bytes are left. */
  lemma TakenWhole(p: Piece, rest: Buffer)
    requires WellFormed(p) && p != Skip([0xff]) && |p.bytes + rest| >= 4
    ensures StepAt(p.bytes + rest) == Take(p)
  {
    hide ReadBigEndian;
    var b := p.bytes + rest;
    assert b[..|p.bytes|] == p.bytes;
    if p.Segment? {
      assert b[2..4] == p.bytes[2..4];
    }
  }

  /** What the walk makes of a fill byte and the last three bytes. */
  lemma FillAndTail(tail: Buffer)
    requires |tail| == 3
    ensures var w := Walk([0xff] + tail);
            && (w.Malformed? <==> Spoils([Skip([0xff])], tail))
            && (w.Walked? ==> Jumbfs(w.pieces) == [])
  {
    var b: Buffer := [0xff] + tail;
    assert b[1] == tail[0] && b[2..4] == tail[1..3] && b[1..] == tail;
    FewBytes(tail);
    FewBytes(b[2..]);
    FewBytes(b[4..]);
    hide ReadBigEndian;
    if StepAt(b).Take? {
      var p := StepAt(b).piece;
      assert Walk(b) == Walked([p], b[|p.bytes|..]);
      NoPayload(p);
      JumbfsCons(p, []);
    }
  }

  lemma FewBytes(b: Buffer)
    requires |b| < 4
    ensures Walk(b) == Walked([], b)
  {
  }

  lemma NoPayload(p: Piece)
    requires |p.bytes| <= 4
    ensures !IsJumbf(p)
  {
  }

  /** A segment has four bytes, so what is shorter is skips alone. */
  lemma {:induction false} OnlySkips(kept: seq<Piece>)
    requires AllWellFormed(kept) && |Join(kept)| < 4
    ensures Jumbfs(kept) == []
  {
    if |kept| > 0 {
      assert WellFormed(kept[0]);
      assert forall i | 0 <= i < |kept[1..]| :: kept[1..][i] == kept[i + 1];
      OnlySkips(kept[1..]);
      NoPayload(kept[0]);
    }
  }

  /**
   The walk of pieces that were kept, when the file ends without SOS: it meets the same
   JUMBF segments, and fails exactly on a spoilt end.
   */
  lemma {:induction false} WalkAgain(kept: seq<Piece>, tail: Buffer)
    requires AllWellFormed(kept) && |tail| < 4
    ensures var w := Walk(Join(kept) + tail);
            && (w.Malformed? <==> Spoils(kept, tail))
            && (w.Walked? ==> Jumbfs(w.pieces) == Jumbfs(kept))
  {
    var b := Join(kept) + tail;
    if |b| < 4 {
      FewBytes(b);
      OnlySkips(kept);
      SpoiltIsLong(kept, tail);
    } else if |kept| == 1 && kept[0] == Skip([0xff]) {
      assert kept == [kept[0]] && Join(kept[1..]) == [];
      assert b == [0xff] + tail;
      FillAndTail(tail);
      NoPayload(kept[0]);
      JumbfsCons(kept[0], []);
    } else {
      var first, rest := kept[0], Join(kept[1..]) + tail;
      assert WellFormed(first) && b == first.bytes + rest;
      RestAgain(kept);
      WalkAgain(kept[1..], tail);
      TakesFirst(kept, tail);
      hide Walk, WellFormed, Spoils, IsJumbf;
      Uncons(kept);
      JumbfsCons(first, kept[1..]);
      if Walk(rest).Walked? {
        JumbfsCons(first, Walk(rest).pieces);
      }
      SpoilsLater(kept, tail);
    }
  }

  lemma RestAgain(kept: seq<Piece>)
    requires AllWellFormed(kept) && |kept| > 0
    ensures AllWellFormed(kept[1..])
  {
    hide WellFormed;
    assert forall i | 0 <= i < |kept[1..]| :: kept[1..][i] == kept[i + 1];
  }

  lemma SpoiltIsLong(kept: seq<Piece>, tail: Buffer)
    ensures Spoils(kept, tail) ==> |Join(kept) + tail| >= 4
  {
    if Spoils(kept, tail) {
      assert kept == kept[..|kept| - 1] + [Skip([0xff])];
      JoinLast(kept[..|kept| - 1], Skip([0xff]));
    }
  }

  lemma {:induction false} JoinLast(front: seq<Piece>, last: Piece)
    ensures |Join(front + [last])| == |Join(front)| + |last.bytes|
  {
    if |front| == 0 {
      assert front + [last] == [last] && [last][1..] == [];
    } else {
      assert (front + [last])[1..] == front[1..] + [last];
      JoinLast(front[1..], last);
    }
  }

  lemma SpoilsLater(kept: seq<Piece>, tail: Buffer)
    requires |kept| > 0 && (|kept| > 1 || kept[0] != Skip([0xff]))
    ensures Spoils(kept, tail) <==> Spoils(kept[1..], tail)
  {
    hide ReadBigEndian;
    if |kept| > 1 {
      assert kept[1..][|kept| - 2] == kept[|kept| - 1];
    }
  }

  /** A fill byte before another piece is followed by 0xff, so it is read as a fill byte again. */
  lemma TakesFirst(kept: seq<Piece>, tail: Buffer)
    requires AllWellFormed(kept) && |kept| > 0 && |Join(kept) + tail| >= 4 && (|kept| > 1 || kept[0] != Skip([0xff]))
    ensures Walk(Join(kept) + tail) == Before(kept[0], Walk(Join(kept[1..]) + tail))
  {
    hide StepAt, Walk, Join, WellFormed;
    var first, rest := kept[0], Join(kept[1..]) + tail;
    assert WellFormed(first);
    assert kept == [first] + kept[1..];
    JoinFirst(first, kept[1..]);
    assert Join(kept) + tail == first.bytes + rest;
    if first == Skip([0xff]) {
      assert WellFormed(kept[1]) && kept[1..] == [kept[1]] + kept[2..];
      JoinFirst(kept[1], kept[2..]);
      PieceBegins(kept[1]);
      FillTaken(rest);
    } else {
      TakenWhole(first, rest);
    }
    StepsOnto(first, rest);
  }

  lemma PieceBegins(p: Piece)
    requires WellFormed(p)
    ensures |p.bytes| > 0 && p.bytes[0] == 0xff
  {
  }

  /** A step that takes a piece leaves the rest to the walk. */
  lemma StepsOnto(first: Piece, rest: Buffer)
    requires StepAt(first.bytes + rest) == Take(first)
    ensures Walk(first.bytes + rest) == Before(first, Walk(rest))
  {
    hide StepAt;
    assert (first.bytes + rest)[|first.bytes|..] == rest;
  }

  lemma FillTaken(rest: Buffer)
    requires |rest| >= 3 && rest[0] == 0xff
    ensures StepAt([0xff] + rest) == Take(Skip([0xff]))
  {
    assert ([0xff] + rest)[..1] == [0xff];
  }

  /** Whether the bytes left of a JPEG come to be spoilt. */
  predicate ComesOutSpoilt(jpeg: Buffer) {
    |jpeg| >= 2 && var w := Walk(jpeg[2..]); w.Walked? && Spoils(Strip(w.pieces, w.pieces), w.tail)
  }

  /**
   Canonical bytes are their own canonical bytes exactly when they do not come out
   spoilt, and they never do when the walk reaches SOS.
   */
  lemma FixedPointExact(jpeg: Buffer)
    requires CanonicalJpeg(jpeg).Some?
    ensures CanonicalJpeg(CanonicalJpeg(jpeg).value) == CanonicalJpeg(jpeg) <==> !ComesOutSpoilt(jpeg)
    ensures ReachesSos(jpeg) ==> !ComesOutSpoilt(jpeg)
  {
    if |jpeg| >= 2 {
      if ReachesSos(jpeg) {
        CanonicalTwice(jpeg);
      } else {
        WithoutSosExact(jpeg);
      }
    }
  }

  lemma WithoutSosExact(jpeg: Buffer)
    requires |jpeg| >= 2 && CanonicalJpeg(jpeg).Some? && !ReachesSos(jpeg)
    ensures CanonicalJpeg(CanonicalJpeg(jpeg).value) == CanonicalJpeg(jpeg) <==> !ComesOutSpoilt(jpeg)
  {
    hide Walk, Strip, AtSos, Dropped, Spoils, Jumbfs, AllWellFormed;
    var w := Walk(jpeg[2..]);
    var kept := Strip(w.pieces, w.pieces);
    WalkParts(jpeg[2..]);
    StripKeeps(w.pieces, w.pieces);
    var again := Walk(Join(kept) + w.tail);
    WalkAgain(kept, w.tail);
    var canonical := jpeg[..2] + Join(kept) + w.tail;
    assert canonical[2..] == Join(kept) + w.tail && canonical[..2] == jpeg[..2];
    if again.Walked? {
      WalkParts(Join(kept) + w.tail);
      forall p | p in kept
        ensures !Dropped(kept, p)
      {
        KeptStays(w.pieces, p);
      }
      StripSameJumbfs(again.pieces, kept);
      assert jpeg[..2] + Join(again.pieces) + again.tail == jpeg[..2] + (Join(again.pieces) + again.tail);
      assert jpeg[..2] + Join(kept) + w.tail == jpeg[..2] + (Join(kept) + w.tail);
    }
  }

  /** `less` are pieces of `pieces`, in order. */
  predicate IsSubsequence(less: seq<Piece>, pieces: seq<Piece>) {
    if |less| == 0 then true
    else if |pieces| == 0 then false
    else if less[0] == pieces[0] && IsSubsequence(less[1..], pieces[1..]) then true
    else IsSubsequence(less, pieces[1..])
  }

  lemma {:induction false} StripIsSubsequence(pieces: seq<Piece>, all: seq<Piece>)
    ensures IsSubsequence(Strip(pieces, all), pieces)
  {
    hide Dropped;
    if |pieces| > 0 {
      StripIsSubsequence(pieces[1..], all);
      assert [] + Strip(pieces[1..], all) == Strip(pieces[1..], all);
      assert ([pieces[0]] + Strip(pieces[1..], all))[1..] == Strip(pieces[1..], all);
    }
  }

  /** What is left walks as the pieces that were not dropped, in order, before the same tail. */
  lemma RemainingInOrder(jpeg: Buffer)
    requires ReachesSos(jpeg)
    ensures var before, after := Walk(jpeg[2..]), Walk(CanonicalJpeg(jpeg).value[2..]);
            && after == Walked(Strip(before.pieces, before.pieces), before.tail)
            && IsSubsequence(after.pieces, before.pieces)
            && forall p | p in after.pieces :: !Dropped(before.pieces, p)
  {
    hide Walk, WellFormed, AtSos, Strip, Dropped, IsSubsequence;
    var w := Walk(jpeg[2..]);
    WalkParts(jpeg[2..]);
    StripKeeps(w.pieces, w.pieces);
    StripIsSubsequence(w.pieces, w.pieces);
    WalkBack(Strip(w.pieces, w.pieces), w.tail);
    assert CanonicalJpeg(jpeg).value[2..] == Join(Strip(w.pieces, w.pieces)) + w.tail;
  }

  /** Every piece is a segment of box `en`. */
  predicate AreBox(pieces: seq<Piece>, en: nat) {
    forall i | 0 <= i < |pieces| :: InBox(pieces[i], en)
  }

  predicate NoneInBox(pieces: seq<Piece>, en: nat) {
    forall i | 0 <= i < |pieces| :: !InBox(pieces[i], en)
  }

  lemma {:induction false} WithoutBox(pieces: seq<Piece>, en: nat)
    ensures AreBox(pieces, en) ==> Without(pieces, en) == []
    ensures NoneInBox(pieces, en) ==> Without(pieces, en) == pieces
  {
    hide InBox;
    if |pieces| > 0 {
      WithoutBox(pieces[1..], en);
      Uncons(pieces);
      assert forall i | 0 <= i < |pieces[1..]| :: pieces[1..][i] == pieces[i + 1];
    }
  }

  lemma {:induction false} WithoutAppend(a: seq<Piece>, b: seq<Piece>, en: nat)
    ensures Without(a + b, en) == Without(a, en) + Without(b, en)
  {
    hide InBox;
    if |a| == 0 {
      assert a + b == b;
    } else {
      WithoutAppend(a[1..], b, en);
      WithoutCons(a[0], a[1..] + b, en);
      WithoutCons(a[0], a[1..], en);
      Uncons(a);
      hide Without;
      assert a + b == [a[0]] + (a[1..] + b);
      JoinedThree(if InBox(a[0], en) then [] else [a[0]], Without(a[1..], en), Without(b, en));
    }
  }

  lemma WithoutCons(first: Piece, rest: seq<Piece>, en: nat)
    ensures Without([first] + rest, en) == (if InBox(first, en) then [] else [first]) + Without(rest, en)
  {
    hide InBox;
    assert ([first] + rest)[1..] == rest;
  }

  lemma JoinedThree<T>(a: seq<T>, b: seq<T>, c: seq<T>)
    ensures a + (b + c) == a + b + c
  {
  }

  lemma {:induction false} TypeOfAppend(a: seq<Piece>, b: seq<Piece>, en: nat)
    requires NoneInBox(a, en)
    ensures TypeOf(a + b, en) == TypeOf(b, en)
  {
    hide InBox, PacketType, Packet, Z;
    if |a| == 0 {
      assert a + b == b;
    } else {
      assert forall i | 0 <= i < |a[1..]| :: a[1..][i] == a[i + 1];
      TypeOfAppend(a[1..], b, en);
      assert (a + b)[1..] == a[1..] + b;
    }
  }

  /** A box none of whose segments begins it leaves the type to what follows. */
  lemma {:induction false} TypeOfLast(a: seq<Piece>, b: seq<Piece>, en: nat)
    requires NoneInBox(b, en)
    ensures TypeOf(a + b, en) == TypeOf(a, en)
  {
    hide InBox, PacketType, Packet, Z;
    if |a| == 0 {
      assert a + b == b;
      TypeOfAppend(b, [], en);
      assert b + [] == b;
    } else {
      TypeOfLast(a[1..], b, en);
      assert (a + b)[1..] == a[1..] + b;
    }
  }

  /**
   Inserting or removing the segments of a store, or of a box whose type cannot be
   read, leaves the canonical bytes as they are: wherever the segments stand, one
   boundary or many, when no other segment carries their box instance number.
   */
  lemma StoreMakesNoDifference(start: Buffer, pieces: seq<Piece>, tail: Buffer, en: nat)
    requires |start| == 2 && AllWellFormed(pieces) && AtSos(tail)
    requires Excluded(TypeOf(pieces, en))
    ensures CanonicalJpeg(start + Join(pieces) + tail) == CanonicalJpeg(start + Join(Without(pieces, en)) + tail)
  {
    hide WellFormed, AtSos, TypeOf, CanonicalJpeg, ReachesSos;
    CanonicalImage(start, pieces, tail);
    WithoutWellFormed(pieces, en);
    CanonicalImage(start, Without(pieces, en), tail);
    StripWithout(pieces, pieces, en);
  }

  lemma {:induction false} WithoutWellFormed(pieces: seq<Piece>, en: nat)
    requires AllWellFormed(pieces)
    ensures AllWellFormed(Without(pieces, en))
  {
    hide WellFormed, InBox;
    if |pieces| > 0 {
      assert forall i | 0 <= i < |pieces[1..]| :: pieces[1..][i] == pieces[i + 1];
      WithoutWellFormed(pieces[1..], en);
      assert WellFormed(pieces[0]);
    }
  }

  /** The same at one boundary: `store` between `a` and `b`, its number used by neither. */
  lemma InsertedStore(start: Buffer, a: seq<Piece>, store: seq<Piece>, b: seq<Piece>, tail: Buffer, en: nat)
    requires |start| == 2 && AllWellFormed(a + store + b) && AtSos(tail)
    requires AreBox(store, en) && NoneInBox(a, en) && NoneInBox(b, en) && Excluded(TypeOf(store, en))
    ensures CanonicalJpeg(start + Join(a + store + b) + tail) == CanonicalJpeg(start + Join(a + b) + tail)
  {
    hide WellFormed, AtSos, TypeOf, CanonicalJpeg, InBox, Without, Join;
    assert a + store + b == a + (store + b);
    TypeOfAppend(a, store + b, en);
    TypeOfLast(store, b, en);
    WithoutAppend(a, store + b, en);
    WithoutAppend(store, b, en);
    WithoutBox(a, en);
    WithoutBox(store, en);
    WithoutBox(b, en);
    assert [] + b == b;
    StoreMakesNoDifference(start, a + store + b, tail, en);
  }

  /**
   Where the bytes end before SOS this can fail: a fill byte in front of a dropped
   segment comes to stand before three bytes that then read as a segment too long.
   */
  lemma WithoutSosItCanFail() returns (jpeg: Buffer)
    ensures !ReachesSos(jpeg) && CanonicalJpeg(jpeg).Some? && CanonicalJpeg(CanonicalJpeg(jpeg).value).None?
  {
    var fill, tail: Buffer := [0xff], [0x00, 0xff, 0xff];
    var segment: Buffer := [0xff, 0xeb, 0x00, 0x0a, 0x4a, 0x50, 0x00, 0x01, 0x00, 0x00, 0x00, 0x01];
    var start: Buffer := [0xff, 0xd8];
    jpeg := start + (fill + (segment + tail));
    assert segment[..4] == [0xff, 0xeb, 0x00, 0x0a] && segment[4..6] == JP;
    FillComesBack(start, fill, segment, tail);
  }

  lemma FillComesBack(start: Buffer, fill: Buffer, segment: Buffer, tail: Buffer)
    requires |start| == 2 && fill == [0xff] && |segment| == 12 && tail == [0x00, 0xff, 0xff]
    requires segment[..4] == [0xff, 0xeb, 0x00, 0x0a] && segment[4..6] == JP
    ensures var jpeg := start + (fill + (segment + tail));
            !ReachesSos(jpeg) && CanonicalJpeg(jpeg).Some? && CanonicalJpeg(CanonicalJpeg(jpeg).value).None?
  {
    FillThenSegment(fill, segment, tail);
    assert segment[1] == segment[..4][1];
    OnlyTheFillStays(fill, segment);
    assert fill + tail == [0xff, 0x00, 0xff, 0xff];
    RunsPastTheEnd(fill + tail);
    hide Walk, Strip, Join, CanonicalJpeg, ReachesSos;
    WalkedTo(start, fill + (segment + tail));
    WalkedTo(start, fill + tail);
    assert start + fill + tail == start + (fill + tail);
  }

  lemma WalkedTo(start: Buffer, b: Buffer)
    requires |start| == 2
    ensures var w := Walk(b);
            && CanonicalJpeg(start + b) == (if w.Malformed? then None else Some(start + Join(Strip(w.pieces, w.pieces)) + w.tail))
            && (ReachesSos(start + b) <==> w.Walked? && AtSos(w.tail))
  {
    assert (start + b)[2..] == b && (start + b)[..2] == start;
  }

  lemma FillThenSegment(fill: Buffer, segment: Buffer, tail: Buffer)
    requires fill == [0xff] && |segment| == 12 && |tail| == 3 && segment[..4] == [0xff, 0xeb, 0x00, 0x0a]
    ensures Walk(fill + (segment + tail)) == Walked([Skip(fill), Segment(segment)], tail)
  {
    EndsInSegment(segment, tail);
    assert segment[0] == segment[..4][0];
    hide ReadBigEndian;
    assert (fill + (segment + tail))[1..] == segment + tail && (fill + (segment + tail))[..1] == fill;
  }

  lemma OnlyTheFillStays(fill: Buffer, segment: Buffer)
    requires |segment| == 12 && segment[1] == 0xeb && segment[4..6] == JP
    ensures var pieces := [Skip(fill), Segment(segment)]; Join(Strip(pieces, pieces)) == fill
  {
    NoTypeThere(segment);
    hide Dropped;
    var pieces := [Skip(fill), Segment(segment)];
    assert pieces[1..] == [Segment(segment)] && pieces[1..][1..] == [];
    assert Strip(pieces[1..], pieces) == [];
    assert Strip(pieces, pieces) == [Skip(fill)];
    assert Join([Skip(fill)][1..]) == [];
  }

  lemma EndsInSegment(segment: Buffer, tail: Buffer)
    requires |segment| == 12 && |tail| == 3 && segment[..4] == [0xff, 0xeb, 0x00, 0x0a]
    ensures Walk(segment + tail) == Walked([Segment(segment)], tail)
  {
    var b := segment + tail;
    assert b[0] == segment[..4][0] && b[1] == segment[..4][1] && b[2] == segment[..4][2] && b[3] == segment[..4][3];
    assert b[2..4] == [0x00, 0x0a];
    TwoBytes(0x00, 0x0a);
    assert b[..12] == segment && b[12..] == tail;
    assert Walk(tail) == Walked([], tail);
  }

  lemma TwoBytes(high: Byte, low: Byte)
    ensures ReadBigEndian([high, low]) == 256 * high + low
  {
    assert [high, low][..1] == [high];
    assert [high][..0] == [];
    assert ReadBigEndian([high]) == high;
  }

  lemma NoTypeThere(segment: Buffer)
    requires |segment| == 12 && segment[1] == 0xeb && segment[4..6] == JP
    ensures forall fill :: var pieces := [Skip(fill), Segment(segment)]; Dropped(pieces, Segment(segment)) && !Dropped(pieces, Skip(fill))
  {
    var p := Segment(segment);
    assert Payload(p)[..2] == segment[4..6];
    forall fill
      ensures var pieces := [Skip(fill), p]; Dropped(pieces, p) && !Dropped(pieces, Skip(fill))
    {
      var pieces := [Skip(fill), p];
      assert pieces[1..] == [p] && [p][1..] == [];
      var en := En(p).value;
      assert TypeOf([], en) == None;
      assert PacketType(Packet(p)) == None;
      assert TypeOf([p], en) == None;
      assert TypeOf(pieces, en) == None;
    }
  }

  lemma RunsPastTheEnd(b: Buffer)
    requires b == [0xff, 0x00, 0xff, 0xff]
    ensures Walk(b).Malformed?
  {
    assert b[2..4] == [0xff, 0xff];
    TwoBytes(0xff, 0xff);
  }

  // ---- any container ----

  datatype Container = Jpeg | Bmff | Unknown

  /** "ftyp" */
  const FTYP: Buffer := [0x66, 0x74, 0x79, 0x70]

  /** The two containers with a canonical form are told by their magic bytes; anything else is opaque. */
  function DetectContainer(bytes: Buffer): Container {
    if |bytes| >= 2 && bytes[0] == 0xff && bytes[1] == 0xd8 then Container.Jpeg
    else if |bytes| >= 8 && bytes[4..8] == FTYP then Bmff
    else Unknown
  }

  function CanonicalBytes(media: Buffer): Option<Buffer> {
    if DetectContainer(media) == Container.Jpeg then CanonicalJpeg(media) else Some(media)
  }

  /** A JPEG begins with FF D8, an ISO-BMFF file has "ftyp" behind its first four bytes; only the first has bytes left out. */
  lemma ContainersExact(media: Buffer)
    ensures DetectContainer(media) == Container.Jpeg <==> [0xff, 0xd8] <= media
    ensures DetectContainer(media) == Bmff <==> !([0xff, 0xd8] <= media) && |media| >= 8 && media[4] == 0x66 && media[5] == 0x74 && media[6] == 0x79 && media[7] == 0x70
    ensures CanonicalBytes(media) == if [0xff, 0xd8] <= media then CanonicalJpeg(media) else Some(media)
  {
    hide CanonicalJpeg;
    if |media| >= 2 {
      assert media[..2] == [media[0], media[1]];
    }
    if |media| >= 8 {
      assert media[4..8] == [media[4], media[5], media[6], media[7]];
    }
  }

  /** For every container: canonical bytes keep it, and are a fixed point unless a JPEG comes out spoilt. */
  lemma CanonicalBytesTwice(media: Buffer)
    requires CanonicalBytes(media).Some?
    ensures DetectContainer(CanonicalBytes(media).value) == DetectContainer(media)
    ensures CanonicalBytes(CanonicalBytes(media).value) == CanonicalBytes(media)
       <==> !(DetectContainer(media) == Container.Jpeg && ComesOutSpoilt(media))
  {
    if DetectContainer(media) == Container.Jpeg {
      hide Walk, Strip, AtSos, Join, ComesOutSpoilt;
      FixedPointExact(media);
      var w := Walk(media[2..]);
      var canonical := media[..2] + Join(Strip(w.pieces, w.pieces)) + w.tail;
      assert canonical[0] == media[0] && canonical[1] == media[1];
    }
  }
}

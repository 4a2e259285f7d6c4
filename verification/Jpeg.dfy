/**
 The marker walk of a JPEG and its JUMBF segments (tools/src/jumbf.ts). A walk cuts the
 bytes behind the start-of-image marker into pieces; everything the canonical form
 depends on is said about the pieces.
 */
module Jpeg {
  import opened ByteStrings

  const SOS: Byte := 0xda
  const APP11: Byte := 0xeb

  /** What the walk passes: a fill byte or a marker without a length, or a marker segment. */
  datatype Piece = Skip(bytes: Buffer) | Segment(bytes: Buffer)

  /** TEM and RSTn. */
  predicate IsLengthless(marker: Byte) {
    marker == 0x01 || 0xd0 <= marker <= 0xd7
  }

  predicate WellFormed(p: Piece) {
    match p
    case Skip(bytes) => bytes == [0xff] || (|bytes| == 2 && bytes[0] == 0xff && IsLengthless(bytes[1]))
    case Segment(bytes) =>
      && |bytes| >= 4 && bytes[0] == 0xff
      && bytes[1] != 0xff && !IsLengthless(bytes[1]) && bytes[1] != SOS
      && ReadBigEndian(bytes[2..4]) == |bytes| - 2
  }

  /** The pieces up to where the walk stops, and the bytes from there on. */
  datatype Walked = Malformed | Walked(pieces: seq<Piece>, tail: Buffer)

  function Before(first: Piece, rest: Walked): Walked {
    if rest.Malformed? then Malformed else Walked([first] + rest.pieces, rest.tail)
  }

  /** One step of the walk. */
  datatype Step = Stop | Bad | Take(piece: Piece)

  function StepAt(b: Buffer): (step: Step)
    ensures step.Take? ==> 0 < |step.piece.bytes| <= |b|
  {
    if |b| < 4 then Stop
    else if b[0] != 0xff then Bad
    else if b[1] == 0xff then Take(Skip(b[..1]))
    else if IsLengthless(b[1]) then Take(Skip(b[..2]))
    else if b[1] == SOS then Stop
    else
      var length := ReadBigEndian(b[2..4]);
      if length < 2 || 2 + length > |b| then Bad else Take(Segment(b[..2 + length]))
  }

  function Walk(b: Buffer): Walked
    decreases |b|
  {
    var step := StepAt(b);
    match step
    case Stop => Walked([], b)
    case Bad => Malformed
    case Take(piece) => Before(piece, Walk(b[|piece.bytes|..]))
  }

  function Join(pieces: seq<Piece>): Buffer {
    if |pieces| == 0 then [] else pieces[0].bytes + Join(pieces[1..])
  }

  predicate AllWellFormed(pieces: seq<Piece>) {
    forall i | 0 <= i < |pieces| :: WellFormed(pieces[i])
  }

  /** The walk stopped at SOS, and not because the bytes ran out. */
  predicate AtSos(tail: Buffer) {
    |tail| >= 4 && tail[0] == 0xff && tail[1] == SOS
  }

  lemma StepTakes(b: Buffer)
    ensures StepAt(b).Take? ==> WellFormed(StepAt(b).piece) && StepAt(b).piece.bytes + b[|StepAt(b).piece.bytes|..] == b
    ensures StepAt(b).Stop? ==> |b| < 4 || AtSos(b)
  {
    hide ReadBigEndian;
    if StepAt(b).Take? && StepAt(b).piece.Segment? {
      var bytes := StepAt(b).piece.bytes;
      assert bytes[2..4] == b[2..4];
    }
  }

  /** A well-formed piece is taken whole when what follows begins a piece or SOS. */
  lemma StepTakesBack(p: Piece, rest: Buffer)
    requires WellFormed(p) && |rest| >= 3 && rest[0] == 0xff
    ensures StepAt(p.bytes + rest) == Take(p)
  {
    hide ReadBigEndian;
    var b := p.bytes + rest;
    assert b[..|p.bytes|] == p.bytes;
    if p.Segment? {
      assert b[2..4] == p.bytes[2..4];
    }
  }

  /** The pieces and the tail are the bytes, in order. */
  ghost predicate Covers(w: Walked, b: Buffer) {
    w.Walked? ==> Join(w.pieces) + w.tail == b && AllWellFormed(w.pieces) && (|w.tail| < 4 || AtSos(w.tail))
  }

  lemma {:induction false} WalkParts(b: Buffer)
    ensures Covers(Walk(b), b)
    decreases |b|
  {
    hide StepAt, WellFormed, AtSos;
    StepTakes(b);
    if StepAt(b).Take? {
      var piece := StepAt(b).piece;
      WalkParts(b[|piece.bytes|..]);
      hide Walk;
      CoversMore(piece, Walk(b[|piece.bytes|..]), b[|piece.bytes|..]);
    }
  }

  lemma CoversMore(piece: Piece, w: Walked, b: Buffer)
    requires Covers(w, b) && WellFormed(piece)
    ensures Covers(Before(piece, w), piece.bytes + b)
  {
    hide WellFormed, AtSos;
    if w.Walked? {
      JoinFirst(piece, w.pieces);
    }
  }

  lemma JoinFirst(first: Piece, rest: seq<Piece>)
    ensures Join([first] + rest) == first.bytes + Join(rest)
  {
    assert ([first] + rest)[1..] == rest;
  }

  /** Whatever follows a piece begins a piece or SOS, at least three bytes of it. */
  lemma {:induction false} JoinStarts(pieces: seq<Piece>, tail: Buffer)
    requires AllWellFormed(pieces) && AtSos(tail)
    ensures |Join(pieces) + tail| >= 4 && (Join(pieces) + tail)[0] == 0xff
  {
    if |pieces| > 0 {
      assert WellFormed(pieces[0]);
    }
  }

  /** Any well-formed pieces before SOS walk back to themselves. */
  lemma {:induction false} WalkBack(pieces: seq<Piece>, tail: Buffer)
    requires AllWellFormed(pieces) && AtSos(tail)
    ensures Walk(Join(pieces) + tail) == Walked(pieces, tail)
  {
    hide Walk, StepAt, WellFormed, AtSos;
    if |pieces| == 0 {
      StopsAtSos(tail);
      assert Join(pieces) + tail == tail;
    } else {
      assert forall i | 0 <= i < |pieces[1..]| :: pieces[1..][i] == pieces[i + 1];
      Uncons(pieces);
      WalkBack(pieces[1..], tail);
      JoinStarts(pieces[1..], tail);
      WalkTakes(pieces[0], Join(pieces[1..]) + tail);
      assert Join(pieces) + tail == pieces[0].bytes + (Join(pieces[1..]) + tail);
    }
  }

  lemma WalkTakes(p: Piece, rest: Buffer)
    requires WellFormed(p) && |rest| >= 3 && rest[0] == 0xff
    ensures Walk(p.bytes + rest) == Before(p, Walk(rest))
  {
    StepTakesBack(p, rest);
    hide StepAt, WellFormed;
    assert (p.bytes + rest)[|p.bytes|..] == rest;
  }

  lemma StopsAtSos(tail: Buffer)
    requires AtSos(tail)
    ensures Walk(tail) == Walked([], tail)
  {
  }

  // ---- JUMBF segments ----

  /** "JP" */
  const JP: Buffer := [0x4a, 0x50]
  const JUMB: Buffer := [0x6a, 0x75, 0x6d, 0x62]
  const JUMD: Buffer := [0x6a, 0x75, 0x6d, 0x64]

  /** The box type of a C2PA manifest store. */
  const STORE: Buffer := [0x63, 0x32, 0x70, 0x61, 0x00, 0x11, 0x00, 0x10, 0x80, 0x00, 0x00, 0xaa, 0x00, 0x38, 0x9b, 0x71]

  function Payload(p: Piece): Buffer {
    if p.Segment? && |p.bytes| >= 4 then p.bytes[4..] else []
  }

  predicate IsJumbf(p: Piece) {
    p.Segment? && |p.bytes| >= 4 && p.bytes[1] == APP11 && |Payload(p)| >= 2 && Payload(p)[..2] == JP
  }

  /** The box instance number; a payload too short for it belongs to no box. */
  function En(p: Piece): Option<nat> {
    if |Payload(p)| >= 8 then Some(ReadBigEndian(Payload(p)[2..4])) else None
  }

  /** The packet sequence number. */
  function Z(p: Piece): Option<nat> {
    if |Payload(p)| >= 8 then Some(ReadBigEndian(Payload(p)[4..8])) else None
  }

  function Packet(p: Piece): Buffer {
    if |Payload(p)| >= 8 then Payload(p)[8..] else []
  }

  /** The box type a first packet states; none when it is not a readable `jumb` box. */
  function PacketType(packet: Buffer): Option<Buffer> {
    if |packet| < 8 || packet[4..8] != JUMB then None
    else
      var header := if ReadBigEndian(packet[..4]) == 1 then 16 else 8;
      if |packet| < header + 24 || packet[header + 4..header + 8] != JUMD then None
      else Some(packet[header + 8..header + 24])
  }

  predicate InBox(p: Piece, en: nat) {
    IsJumbf(p) && En(p) == Some(en)
  }

  /** The type of box `en`, read from its first packet with sequence number 1. */
  function TypeOf(pieces: seq<Piece>, en: nat): Option<Buffer> {
    if |pieces| == 0 then None
    else if InBox(pieces[0], en) && Z(pieces[0]) == Some(1) then PacketType(Packet(pieces[0]))
    else TypeOf(pieces[1..], en)
  }

  /** Not content: a manifest store, or a box whose type cannot be read. */
  predicate Excluded(boxType: Option<Buffer>) {
    boxType.None? || boxType.value == STORE
  }

  predicate Dropped(all: seq<Piece>, p: Piece) {
    IsJumbf(p) && (En(p).None? || Excluded(TypeOf(all, En(p).value)))
  }

  // ---- stripping, and what it leaves ----

  /** The pieces less those dropped for the groups of `all`. */
  function Strip(pieces: seq<Piece>, all: seq<Piece>): seq<Piece> {
    if |pieces| == 0 then []
    else (if Dropped(all, pieces[0]) then [] else [pieces[0]]) + Strip(pieces[1..], all)
  }

  /** The pieces less the segments of box `en`. */
  function Without(pieces: seq<Piece>, en: nat): seq<Piece> {
    if |pieces| == 0 then []
    else (if InBox(pieces[0], en) then [] else [pieces[0]]) + Without(pieces[1..], en)
  }

  lemma Uncons(pieces: seq<Piece>)
    requires |pieces| > 0
    ensures pieces == [pieces[0]] + pieces[1..]
  {
  }

  lemma TypeOfCons(first: Piece, rest: seq<Piece>, en: nat)
    ensures TypeOf([first] + rest, en) == if InBox(first, en) && Z(first) == Some(1) then PacketType(Packet(first)) else TypeOf(rest, en)
  {
    assert ([first] + rest)[1..] == rest;
  }

  /** A box that stays keeps all its segments, and with them its type. */
  lemma {:induction false} TypeOfStripped(pieces: seq<Piece>, all: seq<Piece>, en: nat)
    requires !Excluded(TypeOf(all, en))
    ensures TypeOf(Strip(pieces, all), en) == TypeOf(pieces, en)
  {
    hide PacketType, Packet, Z, IsJumbf, En;
    if |pieces| > 0 {
      TypeOfStripped(pieces[1..], all, en);
      TypeOfCons(pieces[0], Strip(pieces[1..], all), en);
      NotInKeptBox(all, pieces[0], en);
      if Dropped(all, pieces[0]) {
        assert Strip(pieces, all) == Strip(pieces[1..], all);
      }
    }
  }

  lemma NotInKeptBox(all: seq<Piece>, p: Piece, en: nat)
    requires !Excluded(TypeOf(all, en))
    ensures InBox(p, en) ==> !Dropped(all, p)
  {
    hide TypeOf, IsJumbf, En;
  }

  lemma {:induction false} StripKeeps(pieces: seq<Piece>, all: seq<Piece>)
    ensures forall p | p in Strip(pieces, all) :: p in pieces && !Dropped(all, p)
    ensures AllWellFormed(pieces) ==> AllWellFormed(Strip(pieces, all))
  {
    hide Dropped, WellFormed;
    if |pieces| > 0 {
      StripKeeps(pieces[1..], all);
      if AllWellFormed(pieces) {
        assert forall i | 0 <= i < |pieces[1..]| :: pieces[1..][i] == pieces[i + 1];
        assert WellFormed(pieces[0]);
      }
    }
  }

  lemma {:induction false} StripNothing(pieces: seq<Piece>, all: seq<Piece>)
    requires forall p | p in pieces :: !Dropped(all, p)
    ensures Strip(pieces, all) == pieces
  {
    hide Dropped;
    if |pieces| > 0 {
      StripNothing(pieces[1..], all);
      Uncons(pieces);
    }
  }

  lemma KeptStays(all: seq<Piece>, p: Piece)
    requires !Dropped(all, p)
    ensures !Dropped(Strip(all, all), p)
  {
    hide TypeOf, IsJumbf, En, Strip;
    if IsJumbf(p) {
      TypeOfStripped(all, all, En(p).value);
    }
  }

  /** Stripping what was stripped drops nothing more. */
  lemma StripTwice(all: seq<Piece>)
    ensures Strip(Strip(all, all), Strip(all, all)) == Strip(all, all)
  {
    hide Dropped;
    var once := Strip(all, all);
    StripKeeps(all, all);
    forall p | p in once
      ensures !Dropped(once, p)
    {
      KeptStays(all, p);
    }
    StripNothing(once, once);
  }

  lemma {:induction false} TypeOfWithout(pieces: seq<Piece>, gone: nat, en: nat)
    requires en != gone
    ensures TypeOf(Without(pieces, gone), en) == TypeOf(pieces, en)
  {
    hide PacketType, Packet, Z, IsJumbf, En;
    if |pieces| > 0 {
      TypeOfWithout(pieces[1..], gone, en);
      TypeOfCons(pieces[0], Without(pieces[1..], gone), en);
      OneBox(pieces[0], gone, en);
      if InBox(pieces[0], gone) {
        assert Without(pieces, gone) == Without(pieces[1..], gone);
      }
    }
  }

  lemma OneBox(p: Piece, a: nat, b: nat)
    requires a != b
    ensures InBox(p, a) ==> !InBox(p, b)
  {
    hide IsJumbf, En;
  }

  lemma DroppedAlike(all: seq<Piece>, gone: nat, p: Piece)
    requires !InBox(p, gone)
    ensures Dropped(Without(all, gone), p) <==> Dropped(all, p)
  {
    hide IsJumbf, En, TypeOf, Without;
    if IsJumbf(p) && En(p).Some? {
      TypeOfWithout(all, gone, En(p).value);
    }
  }

  /** Taking out every segment of a box that is dropped anyway changes nothing that is left. */
  lemma {:induction false} StripWithout(pieces: seq<Piece>, all: seq<Piece>, gone: nat)
    requires Excluded(TypeOf(all, gone))
    ensures Strip(Without(pieces, gone), Without(all, gone)) == Strip(pieces, all)
  {
    hide Dropped, TypeOf;
    if |pieces| > 0 {
      StripWithout(pieces[1..], all, gone);
      var rest := Without(pieces[1..], gone);
      if InBox(pieces[0], gone) {
        BoxIsDropped(all, pieces[0], gone);
        assert Without(pieces, gone) == rest;
      } else {
        DroppedAlike(all, gone, pieces[0]);
        assert ([pieces[0]] + rest)[1..] == rest;
      }
    }
  }

  lemma BoxIsDropped(all: seq<Piece>, p: Piece, gone: nat)
    requires Excluded(TypeOf(all, gone)) && InBox(p, gone)
    ensures Dropped(all, p)
  {
    hide IsJumbf, En, TypeOf;
  }
}

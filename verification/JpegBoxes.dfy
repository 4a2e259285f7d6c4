/**
 Which boxes the canonical bytes of a JPEG leave out (tools/src/canonical.ts,
 tools/src/jumbf.ts), said of the bytes of the segments: a C2PA manifest store and a box
 whose type cannot be read, and no other.
 */
module JpegBoxes {
  import opened ByteStrings
  import opened Jpeg
  import opened Canonical

  /** 63327061-0011-0010-8000-00AA00389B71, which begins with "c2pa" and is the type of a manifest store. */
  const C2PA_STORE: Buffer := [0x63, 0x32, 0x70, 0x61] + [0x00, 0x11] + [0x00, 0x10] + [0x80, 0x00] + [0x00, 0xaa, 0x00, 0x38, 0x9b, 0x71]

  /** A packet of a box: its sequence number and what it carries. */
  datatype BoxPacket = BoxPacket(z: nat, bytes: Buffer)

  predicate Fits(en: nat, packet: BoxPacket) {
    en < 0x1_0000 && packet.z < 0x1_0000_0000 && |packet.bytes| + 10 < 0x1_0000
  }

  /** The APP11 segment of a packet: marker, length, "JP", the box instance number and the sequence number. */
  function BoxSegment(en: nat, packet: BoxPacket): (bytes: Buffer)
    ensures |bytes| == 12 + |packet.bytes|
  {
    [0xff, 0xeb] + BigEndian(|packet.bytes| + 10, 2) + [0x4a, 0x50] + BigEndian(en, 2) + BigEndian(packet.z, 4) + packet.bytes
  }

  /** A `jumb` box with its description box, cut short or not: lengths, an XLBox when the first is 1, the 16-byte type. */
  function TypedPacket(length: nat, large: Buffer, inner: nat, boxType: Buffer, rest: Buffer): Buffer {
    BigEndian(length, 4) + [0x6a, 0x75, 0x6d, 0x62] + large + BigEndian(inner, 4) + [0x6a, 0x75, 0x6d, 0x64] + boxType + rest
  }

  predicate IsTyped(packet: Buffer, length: nat, large: Buffer, inner: nat, boxType: Buffer, rest: Buffer) {
    && length < 0x1_0000_0000 && inner < 0x1_0000_0000 && |large| == (if length == 1 then 8 else 0) && |boxType| == 16
    && packet == TypedPacket(length, large, inner, boxType, rest)
  }

  // ---- reading a segment back ----

  lemma SegmentReads(en: nat, packet: BoxPacket)
    requires Fits(en, packet)
    ensures var p := Segment(BoxSegment(en, packet));
            WellFormed(p) && InBox(p, en) && Z(p) == Some(packet.z) && Packet(p) == packet.bytes
  {
    Widths();
    ReadWritten(|packet.bytes| + 10, 2);
    ReadWritten(en, 2);
    ReadWritten(packet.z, 4);
    hide BigEndian, ReadBigEndian, Pow256;
    var bytes := BoxSegment(en, packet);
    SegmentFields([0xff, 0xeb], BigEndian(|packet.bytes| + 10, 2), [0x4a, 0x50], BigEndian(en, 2), BigEndian(packet.z, 4), packet.bytes);
    var payload := bytes[4..];
    assert payload[..2] == JP;
  }

  lemma SegmentFields(marker: Buffer, length: Buffer, jp: Buffer, en: Buffer, z: Buffer, packet: Buffer)
    requires |marker| == |length| == |jp| == |en| == 2 && |z| == 4
    ensures var bytes := marker + length + jp + en + z + packet;
            && bytes[2..4] == length && bytes[0] == marker[0] && bytes[1] == marker[1]
            && var payload := bytes[4..];
            payload[..2] == jp && payload[2..4] == en && payload[4..8] == z && payload[8..] == packet
  {
    var bytes := marker + length + jp + en + z + packet;
    assert bytes[4..] == jp + en + z + packet;
  }

  /** A packet has a type exactly when it begins so, and then that one. */
  lemma TypedReads(packet: Buffer, length: nat, large: Buffer, inner: nat, boxType: Buffer, rest: Buffer)
    requires IsTyped(packet, length, large, inner, boxType, rest)
    ensures PacketType(packet) == Some(boxType)
  {
    Widths();
    ReadWritten(length, 4);
    hide BigEndian, ReadBigEndian, Pow256;
    var head := 8 + |large|;
    assert packet[..4] == BigEndian(length, 4) && packet[4..8] == JUMB;
    assert packet[head + 4..head + 8] == JUMD && packet[head + 8..head + 24] == boxType;
  }

  lemma TypeIsWritten(packet: Buffer) returns (length: nat, large: Buffer, inner: nat, rest: Buffer)
    requires PacketType(packet).Some?
    ensures IsTyped(packet, length, large, inner, PacketType(packet).value, rest)
  {
    Widths();
    WriteRead(packet[..4]);
    length := ReadBigEndian(packet[..4]);
    var head := if length == 1 then 16 else 8;
    WriteRead(packet[head..head + 4]);
    large, inner, rest := packet[8..head], ReadBigEndian(packet[head..head + 4]), packet[head + 24..];
    hide BigEndian, ReadBigEndian, Pow256;
    SevenParts(packet, head);
  }

  lemma SevenParts(b: Buffer, head: nat)
    requires 8 <= head && head + 24 <= |b|
    ensures b == b[..4] + b[4..8] + b[8..head] + b[head..head + 4] + b[head + 4..head + 8] + b[head + 8..head + 24] + b[head + 24..]
  {
    assert b == b[..head] + b[head..];
    assert b[..head] == b[..4] + b[4..8] + b[8..head];
    var rest := b[head..];
    assert rest[..4] == b[head..head + 4] && rest[4..8] == b[head + 4..head + 8] && rest[8..24] == b[head + 8..head + 24] && rest[24..] == b[head + 24..];
    assert rest == rest[..4] + rest[4..8] + rest[8..24] + rest[24..];
  }

  // ---- a whole box, inserted ----

  function BoxPieces(en: nat, packets: seq<BoxPacket>): seq<Piece> {
    seq(|packets|, i requires 0 <= i < |packets| => Segment(BoxSegment(en, packets[i])))
  }

  predicate AllFit(en: nat, packets: seq<BoxPacket>) {
    forall i | 0 <= i < |packets| :: Fits(en, packets[i])
  }

  lemma BoxReads(en: nat, packets: seq<BoxPacket>)
    requires AllFit(en, packets)
    ensures AllWellFormed(BoxPieces(en, packets)) && AreBox(BoxPieces(en, packets), en)
  {
    hide InBox, WellFormed, BoxSegment;
    forall i | 0 <= i < |packets|
      ensures WellFormed(BoxPieces(en, packets)[i]) && InBox(BoxPieces(en, packets)[i], en)
    {
      SegmentReads(en, packets[i]);
    }
  }

  /** Packet `k` is the first of the packets numbered 1. */
  predicate Begins(packets: seq<BoxPacket>, k: nat) {
    k < |packets| && packets[k].z == 1 && forall j | 0 <= j < k :: packets[j].z != 1
  }

  lemma {:induction false} BoxType(en: nat, packets: seq<BoxPacket>)
    requires AllFit(en, packets)
    ensures forall k: nat | Begins(packets, k) :: TypeOf(BoxPieces(en, packets), en) == PacketType(packets[k].bytes)
    ensures (forall j | 0 <= j < |packets| :: packets[j].z != 1) ==> TypeOf(BoxPieces(en, packets), en) == None
  {
    if |packets| > 0 {
      hide InBox, Z, Packet, PacketType, BoxSegment;
      SegmentReads(en, packets[0]);
      BoxType(en, packets[1..]);
      assert BoxPieces(en, packets)[1..] == BoxPieces(en, packets[1..]);
      forall k: nat | Begins(packets, k)
        ensures TypeOf(BoxPieces(en, packets), en) == PacketType(packets[k].bytes)
      {
        if k > 0 {
          assert Begins(packets[1..], k - 1);
        }
      }
    }
  }

  /** The pieces the box stands between, none of them of its number, before SOS. */
  predicate Around(start: Buffer, a: seq<Piece>, b: seq<Piece>, tail: Buffer, en: nat) {
    |start| == 2 && AllWellFormed(a) && AllWellFormed(b) && AtSos(tail) && NoneInBox(a, en) && NoneInBox(b, en)
  }

  lemma Inserted(start: Buffer, a: seq<Piece>, b: seq<Piece>, tail: Buffer, en: nat, packets: seq<BoxPacket>)
    requires Around(start, a, b, tail, en) && AllFit(en, packets)
    ensures var box := BoxPieces(en, packets);
            && AllWellFormed(a + box + b) && AreBox(box, en) && TypeOf(a + box + b, en) == TypeOf(box, en)
            && Without(a + box + b, en) == a + b
  {
    BoxReads(en, packets);
    hide WellFormed, AtSos, TypeOf, InBox, Without, BoxPieces;
    var box := BoxPieces(en, packets);
    assert a + box + b == a + (box + b);
    TypeOfAppend(a, box + b, en);
    TypeOfLast(box, b, en);
    WithoutAppend(a, box + b, en);
    WithoutAppend(box, b, en);
    WithoutBox(a, en);
    WithoutBox(box, en);
    WithoutBox(b, en);
    assert [] + b == b;
  }

  /** Inserting the segments of a C2PA manifest store, under a number of its own, leaves the canonical bytes. */
  lemma StoreInserted(start: Buffer, a: seq<Piece>, b: seq<Piece>, tail: Buffer, en: nat, packets: seq<BoxPacket>,
                      k: nat, length: nat, large: Buffer, inner: nat, rest: Buffer)
    requires Around(start, a, b, tail, en) && AllFit(en, packets)
    requires Begins(packets, k) && IsTyped(packets[k].bytes, length, large, inner, C2PA_STORE, rest)
    ensures CanonicalJpeg(start + Join(a + BoxPieces(en, packets) + b) + tail) == CanonicalJpeg(start + Join(a + b) + tail)
  {
    assert C2PA_STORE == STORE;
    TypedReads(packets[k].bytes, length, large, inner, C2PA_STORE, rest);
    BoxType(en, packets);
    Inserted(start, a, b, tail, en, packets);
    hide TypeOf, CanonicalJpeg, BoxPieces, Without, Join, PacketType;
    StoreMakesNoDifference(start, a + BoxPieces(en, packets) + b, tail, en);
  }

  /** And so does a box whose type cannot be read: no packet is numbered 1, or the first that is does not begin as a box with a description. */
  lemma UnreadableInserted(start: Buffer, a: seq<Piece>, b: seq<Piece>, tail: Buffer, en: nat, packets: seq<BoxPacket>)
    requires Around(start, a, b, tail, en) && AllFit(en, packets)
    requires forall k: nat, length, large, inner, boxType, rest | Begins(packets, k) :: !IsTyped(packets[k].bytes, length, large, inner, boxType, rest)
    ensures CanonicalJpeg(start + Join(a + BoxPieces(en, packets) + b) + tail) == CanonicalJpeg(start + Join(a + b) + tail)
  {
    BoxType(en, packets);
    Inserted(start, a, b, tail, en, packets);
    hide TypeOf, CanonicalJpeg, BoxPieces, Without, Join, PacketType, IsTyped;
    if k: nat :| Begins(packets, k) {
      if PacketType(packets[k].bytes).Some? {
        var length, large, inner, rest := TypeIsWritten(packets[k].bytes);
      }
    } else {
      NoneBegins(packets);
    }
    StoreMakesNoDifference(start, a + BoxPieces(en, packets) + b, tail, en);
  }

  lemma {:induction false} NoneBegins(packets: seq<BoxPacket>)
    ensures (exists k: nat :: Begins(packets, k)) || forall j | 0 <= j < |packets| :: packets[j].z != 1
  {
    if |packets| > 0 {
      var most := packets[..|packets| - 1];
      NoneBegins(most);
      if k: nat :| Begins(most, k) {
        assert Begins(packets, k);
      } else {
        assert forall j | 0 <= j < |most| :: most[j] == packets[j];
        if packets[|most|].z == 1 {
          assert Begins(packets, |most|);
        }
      }
    }
  }

  lemma {:induction false} StripAppend(a: seq<Piece>, b: seq<Piece>, all: seq<Piece>)
    ensures Strip(a + b, all) == Strip(a, all) + Strip(b, all)
  {
    hide Dropped;
    if |a| == 0 {
      assert a + b == b;
    } else {
      StripAppend(a[1..], b, all);
      assert (a + b)[1..] == a[1..] + b && (a + b)[0] == a[0];
      var first := if Dropped(all, a[0]) then [] else [a[0]];
      assert Strip(a + b, all) == first + Strip(a[1..] + b, all) && Strip(a, all) == first + Strip(a[1..], all);
      hide Strip;
      Associate(first, Strip(a[1..], all), Strip(b, all));
    }
  }

  lemma Associate(a: seq<Piece>, b: seq<Piece>, c: seq<Piece>)
    ensures a + (b + c) == a + b + c
  {
  }

  lemma {:induction false} StripAlike(pieces: seq<Piece>, all: seq<Piece>, all': seq<Piece>)
    requires forall p | p in pieces :: Dropped(all, p) <==> Dropped(all', p)
    ensures Strip(pieces, all) == Strip(pieces, all')
  {
    hide Dropped;
    if |pieces| > 0 {
      StripAlike(pieces[1..], all, all');
    }
  }

  lemma {:induction false} JoinTwo(a: seq<Piece>, b: seq<Piece>)
    ensures Join(a + b) == Join(a) + Join(b)
  {
    if |a| == 0 {
      assert a + b == b;
    } else {
      hide Join;
      var first, rest := a[0], a[1..];
      assert a == [first] + rest && a + b == [first] + (rest + b);
      JoinFirst(first, rest);
      JoinFirst(first, rest + b);
      JoinTwo(rest, b);
    }
  }

  /** The pieces left are those left without the box, and the box where it stands. */
  lemma OtherKept(a: seq<Piece>, box: seq<Piece>, b: seq<Piece>, en: nat)
    requires AreBox(box, en) && NoneInBox(a, en) && NoneInBox(b, en)
    requires Without(a + box + b, en) == a + b && !Excluded(TypeOf(a + box + b, en))
    ensures var all := a + box + b;
            Strip(a + b, a + b) == Strip(a, a + b) + Strip(b, a + b) && Strip(all, all) == Strip(a, a + b) + box + Strip(b, a + b)
  {
    hide Dropped, TypeOf, InBox, Without, Strip;
    var all := a + box + b;
    StripAppend(a, b, a + b);
    StripAppend(a + box, b, all);
    StripAppend(a, box, all);
    forall p | p in a || p in b
      ensures Dropped(all, p) <==> Dropped(a + b, p)
    {
      DroppedAlike(all, en, p);
    }
    StripAlike(a, all, a + b);
    StripAlike(b, all, a + b);
    forall p | p in box
      ensures !Dropped(all, p)
    {
      NotInKeptBox(all, p, en);
    }
    StripNothing(box, all);
  }

  /** The segments of a box of any other readable type all stand in the canonical bytes, in order, where they were inserted. */
  lemma OtherInserted(start: Buffer, a: seq<Piece>, b: seq<Piece>, tail: Buffer, en: nat, packets: seq<BoxPacket>,
                      k: nat, length: nat, large: Buffer, inner: nat, boxType: Buffer, rest: Buffer) returns (before: Buffer, after: Buffer)
    requires Around(start, a, b, tail, en) && AllFit(en, packets)
    requires Begins(packets, k) && IsTyped(packets[k].bytes, length, large, inner, boxType, rest) && boxType != C2PA_STORE
    ensures CanonicalJpeg(start + Join(a + b) + tail) == Some(before + after)
    ensures CanonicalJpeg(start + Join(a + BoxPieces(en, packets) + b) + tail) == Some(before + Join(BoxPieces(en, packets)) + after)
  {
    var box := BoxPieces(en, packets);
    assert C2PA_STORE == STORE;
    TypedReads(packets[k].bytes, length, large, inner, boxType, rest);
    BoxType(en, packets);
    Inserted(start, a, b, tail, en, packets);
    BothWellFormed(a, b);
    hide TypeOf, CanonicalJpeg, BoxPieces, Without, Join, PacketType, IsTyped, ReachesSos, WellFormed, AtSos, Strip, InBox, Around, AllFit, Begins, AllWellFormed;
    OtherKept(a, box, b, en);
    CanonicalImage(start, a + b, tail);
    CanonicalImage(start, a + box + b, tail);
    before := start + Join(Strip(a, a + b));
    after := Join(Strip(b, a + b)) + tail;
    JoinTwo(Strip(a, a + b), Strip(b, a + b));
    JoinTwo(Strip(a, a + b) + box, Strip(b, a + b));
    JoinTwo(Strip(a, a + b), box);
    Regroup(start, Join(Strip(a, a + b)), [], Join(Strip(b, a + b)), tail);
    Regroup(start, Join(Strip(a, a + b)), Join(box), Join(Strip(b, a + b)), tail);
  }

  lemma Regroup(start: Buffer, x: Buffer, box: Buffer, y: Buffer, tail: Buffer)
    ensures start + (x + box + y) + tail == (start + x) + box + (y + tail)
    ensures start + (x + y) + tail == (start + x) + (y + tail)
  {
  }

  lemma BothWellFormed(a: seq<Piece>, b: seq<Piece>)
    requires AllWellFormed(a) && AllWellFormed(b)
    ensures AllWellFormed(a + b)
  {
    hide WellFormed;
  }

  // ---- every piece: what stays ----

  /** An APP11 segment whose payload begins with "JP". */
  predicate IsJp(p: Piece) {
    p.Segment? && |p.bytes| >= 6 && p.bytes[1] == 0xeb && p.bytes[4] == 0x4a && p.bytes[5] == 0x50
  }

  /** Such a segment with this box instance number. */
  predicate HasNumber(p: Piece, en: nat) {
    IsJp(p) && |p.bytes| >= 12 && ReadBigEndian(p.bytes[6..8]) == en
  }

  /** Piece `k` is the first of box `en` with sequence number 1. */
  predicate IsFirst(all: seq<Piece>, en: nat, k: nat) {
    k < |all| && HasNumber(all[k], en) && ReadBigEndian(all[k].bytes[8..12]) == 1
    && forall j | 0 <= j < k && HasNumber(all[j], en) :: ReadBigEndian(all[j].bytes[8..12]) != 1
  }

  /** A packet begins a typed box of a type other than a manifest store's. */
  ghost predicate OfOtherType(packet: Buffer) {
    exists length: nat, large, inner: nat, boxType, rest :: IsTyped(packet, length, large, inner, boxType, rest) && boxType != C2PA_STORE
  }

  /** Box `en` is content: its first packet begins it as one of another type. */
  ghost predicate IsContent(all: seq<Piece>, en: nat) {
    exists k: nat :: IsFirst(all, en, k) && OfOtherType(all[k].bytes[12..])
  }

  /** A piece stays unless it is a JUMBF segment of no content box. */
  ghost predicate Stays(all: seq<Piece>, p: Piece) {
    !IsJp(p) || exists en: nat :: HasNumber(p, en) && IsContent(all, en)
  }

  lemma ReadsAsNumbered(p: Piece)
    requires WellFormed(p)
    ensures IsJumbf(p) <==> IsJp(p)
    ensures forall en: nat :: InBox(p, en) <==> HasNumber(p, en)
    ensures IsJp(p) && |p.bytes| >= 12 ==> Z(p) == Some(ReadBigEndian(p.bytes[8..12])) && Packet(p) == p.bytes[12..]
  {
    hide ReadBigEndian;
    if p.Segment? {
      var payload := p.bytes[4..];
      if |payload| >= 2 {
        assert payload[..2] == [p.bytes[4], p.bytes[5]];
      }
      if |payload| >= 8 {
        assert payload[2..4] == p.bytes[6..8] && payload[4..8] == p.bytes[8..12] && payload[8..] == p.bytes[12..];
      }
    }
  }

  lemma {:induction false} TypeIsFirst(all: seq<Piece>, en: nat) returns (k: nat)
    requires AllWellFormed(all)
    ensures TypeOf(all, en).Some? ==> IsFirst(all, en, k) && TypeOf(all, en) == PacketType(all[k].bytes[12..])
    ensures forall i: nat | IsFirst(all, en, i) :: TypeOf(all, en) == PacketType(all[i].bytes[12..])
  {
    k := 0;
    if |all| > 0 {
      hide InBox, Z, Packet, PacketType, ReadBigEndian, WellFormed, IsJp;
      assert WellFormed(all[0]);
      ReadsAsNumbered(all[0]);
      if !(InBox(all[0], en) && Z(all[0]) == Some(1)) {
        assert AllWellFormed(all[1..]);
        k := TypeIsFirst(all[1..], en);
        k := k + 1;
        forall i: nat | IsFirst(all, en, i)
          ensures TypeOf(all, en) == PacketType(all[i].bytes[12..])
        {
          assert IsFirst(all[1..], en, i - 1);
        }
      }
    }
  }

  lemma OtherTypeExact(packet: Buffer)
    ensures OfOtherType(packet) <==> !Excluded(PacketType(packet))
  {
    assert C2PA_STORE == STORE;
    hide PacketType, IsTyped;
    if !Excluded(PacketType(packet)) {
      var length, large, inner, rest := TypeIsWritten(packet);
    }
    if OfOtherType(packet) {
      var length: nat, large, inner: nat, boxType, rest :| IsTyped(packet, length, large, inner, boxType, rest) && boxType != C2PA_STORE;
      TypedReads(packet, length, large, inner, boxType, rest);
    }
  }

  lemma ContentExact(all: seq<Piece>, en: nat)
    requires AllWellFormed(all)
    ensures IsContent(all, en) <==> !Excluded(TypeOf(all, en))
  {
    var k := TypeIsFirst(all, en);
    hide TypeOf, WellFormed, IsFirst, PacketType, OfOtherType;
    if !Excluded(TypeOf(all, en)) {
      OtherTypeExact(all[k].bytes[12..]);
    }
    if IsContent(all, en) {
      var i: nat :| IsFirst(all, en, i) && OfOtherType(all[i].bytes[12..]);
      OtherTypeExact(all[i].bytes[12..]);
    }
  }

  lemma StaysExact(all: seq<Piece>, p: Piece)
    requires AllWellFormed(all) && WellFormed(p)
    ensures Stays(all, p) <==> !Dropped(all, p)
  {
    ReadsAsNumbered(p);
    hide TypeOf, WellFormed, IsJp, IsJumbf, Excluded, IsContent, HasNumber;
    if En(p).Some? {
      ContentExact(all, En(p).value);
    }
    assert forall en: nat :: InBox(p, en) ==> En(p) == Some(en);
  }

  ghost function Staying(pieces: seq<Piece>, all: seq<Piece>): seq<Piece> {
    if |pieces| == 0 then []
    else (if Stays(all, pieces[0]) then [pieces[0]] else []) + Staying(pieces[1..], all)
  }

  lemma {:induction false} StripIsStaying(pieces: seq<Piece>, all: seq<Piece>)
    requires AllWellFormed(pieces) && AllWellFormed(all)
    ensures Strip(pieces, all) == Staying(pieces, all)
  {
    hide Dropped, Stays, WellFormed;
    if |pieces| > 0 {
      assert WellFormed(pieces[0]);
      StaysExact(all, pieces[0]);
      assert AllWellFormed(pieces[1..]);
      StripIsStaying(pieces[1..], all);
    }
  }

  /** The canonical bytes are the first two, every piece that stays, and what lies behind the walk. */
  lemma CanonicalExact(jpeg: Buffer)
    requires |jpeg| >= 2
    ensures var w := Walk(jpeg[2..]);
            CanonicalJpeg(jpeg) == if w.Malformed? then None else Some(jpeg[..2] + Join(Staying(w.pieces, w.pieces)) + w.tail)
  {
    hide Walk, Strip, Staying, WellFormed;
    var w := Walk(jpeg[2..]);
    WalkParts(jpeg[2..]);
    if w.Walked? {
      StripIsStaying(w.pieces, w.pieces);
    }
  }

  /** Markers that stand without a length: TEM, and RST0 to RST7. */
  const LONE_MARKERS: set<Byte> := {0x01, 0xd0, 0xd1, 0xd2, 0xd3, 0xd4, 0xd5, 0xd6, 0xd7}

  /** The pieces in front of SOS, byte by byte: a fill byte, a lone marker, or a marker with the length of what follows it. */
  lemma PieceExact(p: Piece)
    ensures WellFormed(p) <==>
            match p
            case Skip(bytes) => bytes == [0xff] || (|bytes| == 2 && bytes[0] == 0xff && bytes[1] in LONE_MARKERS)
            case Segment(bytes) =>
              && |bytes| >= 4 && bytes[0] == 0xff && bytes[1] != 0xff && bytes[1] != 0xda && bytes[1] !in LONE_MARKERS
              && ReadBigEndian(bytes[2..4]) == |bytes| - 2
    ensures forall tail :: AtSos(tail) <==> |tail| >= 4 && tail[0] == 0xff && tail[1] == 0xda
  {
    hide ReadBigEndian;
  }
}

/** The trailer a proof is appended in, and its reading procedure (tools/src/trailer.ts). */
module Trailer {
  import opened ByteStrings

  const FOOTER_LENGTH: nat := 16
  const BOX_HEADER_LENGTH: nat := 8

  /** "VCAP" */
  const MAGIC: Buffer := [0x56, 0x43, 0x41, 0x50]

  /** "free" */
  const FREE: Buffer := [0x66, 0x72, 0x65, 0x65]

  datatype ParsedTrailer =
    | NoTrailer
    | CorruptedTrailer
    | UnsupportedTrailer(major: nat)
    | OkTrailer(payload: Buffer, flags: nat, minor: nat, mediaEnd: nat)

  /** CRC-32 of the payload. */
  type Checksum = Buffer -> nat

  /** An ASCII decoder drops the high bit, so 16 byte strings read as the box type. */
  predicate ReadsFree(boxType: Buffer) {
    |boxType| == 4 && forall i | 0 <= i < 4 :: boxType[i] % 0x80 == FREE[i]
  }

  function Footer(payload: Buffer, minor: Byte, flags: nat, checksum: nat): (footer: Buffer)
    requires flags < Pow256(2)
    ensures |footer| == FOOTER_LENGTH
  {
    MAGIC + [1, minor] + BigEndian(flags, 2) + BigEndian(|payload|, 4) + BigEndian(checksum, 4)
  }

  function TotalLength(payload: Buffer): nat {
    BOX_HEADER_LENGTH + |payload| + FOOTER_LENGTH
  }

  /** A trailer whose box carries `boxType`; sizes must fit their four bytes. */
  function BuildTrailer(crc: Checksum, payload: Buffer, minor: Byte, flags: nat, boxType: Buffer): (trailer: Buffer)
    requires flags < Pow256(2) && |boxType| == 4
    ensures |trailer| == TotalLength(payload)
  {
    BigEndian(TotalLength(payload), 4) + boxType + payload + Footer(payload, minor, flags, crc(payload))
  }

  predicate EndsInMagic(file: Buffer) {
    |file| >= FOOTER_LENGTH && file[|file| - 16..|file| - 12] == MAGIC
  }

  /** The field of the footer between these distances from the end of the file. */
  function FooterField(file: Buffer, from: nat, to: nat): nat
    requires to <= from <= |file|
  {
    ReadBigEndian(file[|file| - from..|file| - to])
  }

  function ParseTrailer(crc: Checksum, file: Buffer): (t: ParsedTrailer)
    ensures t.OkTrailer? ==> t.mediaEnd + 24 <= |file|
  {
    if |file| < FOOTER_LENGTH + BOX_HEADER_LENGTH || !EndsInMagic(file) then NoTrailer
    else if file[|file| - 12] != 1 then UnsupportedTrailer(file[|file| - 12])
    else
      var total := BOX_HEADER_LENGTH + FooterField(file, 8, 4) + FOOTER_LENGTH;
      if total > |file| then NoTrailer
      else
        var start := |file| - total;
        if ReadBigEndian(file[start..start + 4]) != total || !ReadsFree(file[start + 4..start + 8]) then NoTrailer
        else
          var payload := file[start + 8..|file| - 16];
          if crc(payload) != FooterField(file, 4, 0) then CorruptedTrailer
          else OkTrailer(payload, FooterField(file, 10, 8), file[|file| - 11], start)
  }

  /** Where an unreadable trailer starts; none when the file ends in no magic, or in a usable trailer. */
  function UnreadableTrailerStart(crc: Checksum, file: Buffer): (start: Option<nat>)
    ensures start.Some? ==> start.value <= |file|
  {
    if !EndsInMagic(file) || ParseTrailer(crc, file).OkTrailer? then None
    else
      var total := BOX_HEADER_LENGTH + FooterField(file, 8, 4) + FOOTER_LENGTH;
      if total <= |file| && ReadBigEndian(file[|file| - total..][..4]) == total && ReadsFree(file[|file| - total..][4..8])
      then Some(|file| - total)
      else Some(|file| - FOOTER_LENGTH)
  }

  /** The fields of a footer, read back from the end of a file. */
  lemma FooterFields(before: Buffer, payload: Buffer, minor: Byte, flags: nat, checksum: nat)
    requires flags < Pow256(2) && |payload| < Pow256(4) && checksum < Pow256(4)
    ensures var file := before + Footer(payload, minor, flags, checksum);
            && EndsInMagic(file) && file[|file| - 12] == 1 && file[|file| - 11] == minor
            && FooterField(file, 10, 8) == flags && FooterField(file, 8, 4) == |payload| && FooterField(file, 4, 0) == checksum
  {
    var file := before + Footer(payload, minor, flags, checksum);
    var n := |file|;
    assert file[n - 16..n - 12] == MAGIC;
    assert file[n - 10..n - 8] == BigEndian(flags, 2);
    assert file[n - 8..n - 4] == BigEndian(|payload|, 4);
    assert file[n - 4..n] == BigEndian(checksum, 4);
    ReadWritten(flags, 2);
    ReadWritten(|payload|, 4);
    ReadWritten(checksum, 4);
  }

  /** A trailer that was built is read, whatever it was appended to. */
  lemma BuiltIsRead(crc: Checksum, media: Buffer, payload: Buffer, minor: Byte, flags: nat, boxType: Buffer)
    requires flags < Pow256(2) && TotalLength(payload) < Pow256(4) && crc(payload) < Pow256(4) && ReadsFree(boxType)
    ensures ParseTrailer(crc, media + BuildTrailer(crc, payload, minor, flags, boxType)) == OkTrailer(payload, flags, minor, |media|)
  {
    var size := BigEndian(TotalLength(payload), 4);
    var head := media + size + boxType + payload;
    var file := media + BuildTrailer(crc, payload, minor, flags, boxType);
    assert file == head + Footer(payload, minor, flags, crc(payload));
    FooterFields(head, payload, minor, flags, crc(payload));
    ReadWritten(TotalLength(payload), 4);
    var start := |media|;
    assert file[start..start + 4] == size;
    assert file[start + 4..start + 8] == boxType;
    assert file[start + 8..|file| - 16] == payload;
  }

  /** And one that is read was built: the bytes after the media are the box, the payload and its footer, nothing else. */
  lemma ReadWasBuilt(crc: Checksum, file: Buffer)
    requires ParseTrailer(crc, file).OkTrailer?
    ensures var t := ParseTrailer(crc, file);
            && t.flags < Pow256(2) && t.minor < 256
            && var boxType := file[t.mediaEnd..][4..8];
            && ReadsFree(boxType)
            && file == file[..t.mediaEnd] + BuildTrailer(crc, t.payload, t.minor, t.flags, boxType)
  {
    var t := ParseTrailer(crc, file);
    var start := t.mediaEnd;
    FooterIs(crc, file);
    HeadIs(crc, file);
    hide ParseTrailer, Footer, BigEndian, Pow256;
    Pieces(file, start);
  }

  lemma HeadIs(crc: Checksum, file: Buffer)
    requires ParseTrailer(crc, file).OkTrailer?
    ensures var t := ParseTrailer(crc, file);
            && file[t.mediaEnd..t.mediaEnd + 4] == BigEndian(TotalLength(t.payload), 4)
            && file[t.mediaEnd + 4..t.mediaEnd + 8] == file[t.mediaEnd..][4..8] && ReadsFree(file[t.mediaEnd..][4..8])
            && file[t.mediaEnd + 8..|file| - 16] == t.payload
  {
    var t := ParseTrailer(crc, file);
    WriteRead(file[t.mediaEnd..t.mediaEnd + 4]);
    hide ReadBigEndian, BigEndian, Pow256;
    assert file[t.mediaEnd..][4..8] == file[t.mediaEnd + 4..t.mediaEnd + 8];
  }

  lemma FooterIs(crc: Checksum, file: Buffer)
    requires ParseTrailer(crc, file).OkTrailer?
    ensures var t := ParseTrailer(crc, file);
            t.flags < Pow256(2) && t.minor < 256 && file[|file| - 16..] == Footer(t.payload, t.minor, t.flags, crc(t.payload))
  {
    var n := |file|;
    WriteRead(file[n - 10..n - 8]);
    WriteRead(file[n - 8..n - 4]);
    WriteRead(file[n - 4..n]);
    hide ReadBigEndian, BigEndian, Pow256;
    FooterPieces(file);
    assert file[n - 16..n] == file[n - 16..];
  }

  lemma Pieces(file: Buffer, start: nat)
    requires start + 24 <= |file|
    ensures file == file[..start] + (file[start..start + 4] + file[start + 4..start + 8] + file[start + 8..|file| - 16] + file[|file| - 16..])
  {
  }

  lemma FooterPieces(file: Buffer)
    requires |file| >= 16
    ensures var n := |file|;
            file[n - 16..n] == file[n - 16..n - 12] + [file[n - 12], file[n - 11]] + file[n - 10..n - 8] + file[n - 8..n - 4] + file[n - 4..n]
  {
  }

  // ---- every outcome ----

  /** From `start` on the file is a `free` box of that very length, ending in a footer with the magic and the payload's length. */
  predicate BoxedAt(file: Buffer, start: nat) {
    && start + 24 <= |file|
    && file[|file| - 16..|file| - 12] == [0x56, 0x43, 0x41, 0x50]
    && ReadBigEndian(file[start..start + 4]) == |file| - start && ReadsFree(file[start + 4..start + 8])
    && ReadBigEndian(file[|file| - 8..|file| - 4]) == |file| - start - 24
  }

  /** What the last bytes are read as: whose major, whether a box is there, and whether its checksum matches. */
  lemma OutcomeExact(crc: Checksum, file: Buffer)
    ensures var t := ParseTrailer(crc, file);
            var footed := |file| >= 24 && file[|file| - 16..|file| - 12] == [0x56, 0x43, 0x41, 0x50];
            && (t.UnsupportedTrailer? <==> footed && file[|file| - 12] != 1)
            && (t.UnsupportedTrailer? ==> t.major == file[|file| - 12])
            && (t.NoTrailer? <==> !footed || (file[|file| - 12] == 1 && forall start: nat :: !BoxedAt(file, start)))
            && (t.CorruptedTrailer? <==>
                  footed && file[|file| - 12] == 1
                  && exists start: nat :: BoxedAt(file, start) && crc(file[start + 8..|file| - 16]) != ReadBigEndian(file[|file| - 4..]))
  {
    hide ReadBigEndian, ReadsFree;
    var n := |file|;
    if n >= 24 && EndsInMagic(file) {
      assert file[n - 4..n] == file[n - 4..];
      var total := 24 + FooterField(file, 8, 4);
      if total <= n {
        assert BoxedAt(file, n - total) <==> ReadBigEndian(file[n - total..n - total + 4]) == total && ReadsFree(file[n - total + 4..n - total + 8]);
      }
      forall start: nat | BoxedAt(file, start)
        ensures total <= n && start == n - total
      {
      }
    }
  }

  /** An unreadable trailer is the box there, whatever its major and checksum, or else the footer alone. */
  lemma UnreadableExact(crc: Checksum, file: Buffer)
    ensures var s := UnreadableTrailerStart(crc, file);
            && (s.None? <==> |file| < 16 || file[|file| - 16..|file| - 12] != [0x56, 0x43, 0x41, 0x50] || ParseTrailer(crc, file).OkTrailer?)
            && (s.Some? ==> BoxedAt(file, s.value) || (s.value == |file| - 16 && forall start: nat :: !BoxedAt(file, start)))
  {
    hide ReadBigEndian, ReadsFree, ParseTrailer;
    var n := |file|;
    if n >= 16 && EndsInMagic(file) {
      var total := 24 + FooterField(file, 8, 4);
      if total <= n {
        var box := file[n - total..];
        assert box[..4] == file[n - total..n - total + 4] && box[4..8] == file[n - total + 4..n - total + 8];
      }
      forall start: nat | BoxedAt(file, start)
        ensures total <= n && start == n - total
      {
      }
    }
  }
}

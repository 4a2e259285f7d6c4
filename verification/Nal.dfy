/**
 NAL units of a video sample (tools/src/container.ts): splitting a sample,
 undoing emulation prevention, and recognising the vcap SEI.
 */
module Nal {
  import opened ByteStrings

  // ---- a sample is tiled by its NAL units ----

  /** The NAL units of a sample whose length prefixes are `width` bytes; none when they do not tile it. */
  function Nals(sample: Buffer, width: nat): Option<seq<Buffer>>
    requires width > 0
    decreases |sample|
  {
    if |sample| == 0 then Some([])
    else if width > |sample| then None
    else
      var size := ReadBigEndian(sample[..width]);
      if size == 0 || width + size > |sample| then None
      else
        Prepend([sample[width..width + size]], Nals(sample[width + size..], width))
  }

  /** `first` units before whatever the rest of a sample holds. */
  function Prepend(first: seq<Buffer>, rest: Option<seq<Buffer>>): Option<seq<Buffer>> {
    if rest.None? then None else Some(first + rest.value)
  }

  lemma PrependTwice(a: seq<Buffer>, b: seq<Buffer>, rest: Option<seq<Buffer>>)
    ensures Prepend(a, Prepend(b, rest)) == Prepend(a + b, rest)
    ensures Prepend([], rest) == rest
  {
    if rest.Some? {
      assert a + (b + rest.value) == a + b + rest.value;
      assert [] + rest.value == rest.value;
    }
  }

  method NalsOf(sample: Buffer, width: nat) returns (nals: Option<seq<Buffer>>)
    requires width > 0
    ensures nals == Nals(sample, width)
  {
    var units: seq<Buffer> := [];
    var at := 0;
    PrependTwice([], [], Nals(sample, width));
    assert sample[0..] == sample;
    while at < |sample|
      invariant 0 <= at <= |sample|
      invariant Prepend(units, Nals(sample[at..], width)) == Nals(sample, width)
    {
      if at + width > |sample| {
        return None;
      }
      var size := ReadPrefix(sample, at, width);
      if size == 0 {
        return None;
      }
      if at + width + size > |sample| {
        return None;
      }
      var unit := sample[at + width..at + width + size];
      assert sample[at..][width..width + size] == unit;
      assert sample[at..][width + size..] == sample[at + width + size..];
      PrependTwice(units, [unit], Nals(sample[at + width + size..], width));
      units := units + [unit];
      at := at + width + size;
    }
    assert units + [] == units;
    return Some(units);
  }

  /** The loop that reads a length prefix byte by byte. */
  method ReadPrefix(sample: Buffer, at: nat, width: nat) returns (size: nat)
    requires at + width <= |sample|
    ensures size == ReadBigEndian(sample[at..][..width])
  {
    size := 0;
    for i := 0 to width
      invariant size == ReadBigEndian(sample[at..][..i])
    {
      assert sample[at..][..i + 1][..i] == sample[at..][..i];
      size := size * 256 + sample[at + i];
    }
  }

  /** A unit as a sample stores it. */
  function Stored(nal: Buffer, width: nat): Buffer {
    BigEndian(|nal|, width) + nal
  }

  function Join(nals: seq<Buffer>, width: nat): Buffer {
    if |nals| == 0 then [] else Stored(nals[0], width) + Join(nals[1..], width)
  }

  predicate Storable(nals: seq<Buffer>, width: nat) {
    forall i | 0 <= i < |nals| :: 0 < |nals[i]| < Pow256(width)
  }

  /** Splitting and joining undo each other: a sample is exactly its prefixes and its units. */
  lemma {:induction false} NalsExact(sample: Buffer, width: nat, nals: seq<Buffer>)
    requires width > 0
    ensures Nals(sample, width) == Some(nals) <==> Storable(nals, width) && sample == Join(nals, width)
    decreases |sample| + |nals|
  {
    if Nals(sample, width) == Some(nals) {
      SplitJoins(sample, width);
    }
    if Storable(nals, width) && sample == Join(nals, width) {
      JoinSplits(nals, width);
    }
  }

  lemma {:induction false} SplitJoins(sample: Buffer, width: nat)
    requires width > 0 && Nals(sample, width).Some?
    ensures Storable(Nals(sample, width).value, width) && Join(Nals(sample, width).value, width) == sample
    decreases |sample|
  {
    if |sample| > 0 {
      hide Join, Storable;
      var prefix := sample[..width];
      var size := ReadBigEndian(prefix);
      var unit, rest := sample[width..width + size], sample[width + size..];
      SplitJoins(rest, width);
      WriteRead(prefix);
      JoinCons(unit, Nals(rest, width).value, width);
      ThreeParts(sample, width, width + size);
    }
  }

  lemma ThreeParts(s: Buffer, a: nat, b: nat)
    requires a <= b <= |s|
    ensures s == s[..a] + s[a..b] + s[b..]
  {
  }

  /** Three parts joined, taken apart again. */
  lemma PartsBack(a: Buffer, b: Buffer, c: Buffer)
    ensures var s := a + b + c; s[..|a|] == a && s[|a|..|a| + |b|] == b && s[|a| + |b|..] == c
  {
  }

  lemma JoinCons(unit: Buffer, rest: seq<Buffer>, width: nat)
    ensures Join([unit] + rest, width) == Stored(unit, width) + Join(rest, width)
    ensures Storable([unit] + rest, width) <==> 0 < |unit| < Pow256(width) && Storable(rest, width)
  {
    var nals := [unit] + rest;
    assert nals[1..] == rest;
    if Storable(nals, width) {
      assert 0 < |nals[0]| < Pow256(width);
      assert forall i | 0 <= i < |rest| :: rest[i] == nals[i + 1];
    }
  }

  lemma {:induction false} JoinSplits(nals: seq<Buffer>, width: nat)
    requires width > 0 && Storable(nals, width)
    ensures Nals(Join(nals, width), width) == Some(nals)
  {
    if |nals| > 0 {
      JoinSplits(nals[1..], width);
      var prefix, rest := BigEndian(|nals[0]|, width), Join(nals[1..], width);
      ReadWritten(|nals[0]|, width);
      PartsBack(prefix, nals[0], rest);
      assert [nals[0]] + nals[1..] == nals;
      hide BigEndian, ReadBigEndian, Pow256;
    }
  }

  // ---- emulation prevention (section 7.4.1 of H.264, 7.4.2 of H.265) ----

  function Unescape(nal: Buffer, zeros: nat): Buffer {
    if |nal| == 0 then []
    else if zeros >= 2 && nal[0] == 3 then Unescape(nal[1..], 0)
    else [nal[0]] + Unescape(nal[1..], if nal[0] == 0 then zeros + 1 else 0)
  }

  method Rbsp(nal: Buffer) returns (out: Buffer)
    ensures out == Unescape(nal, 0)
  {
    out := [];
    var zeros: nat := 0;
    for i := 0 to |nal|
      invariant out + Unescape(nal[i..], zeros) == Unescape(nal, 0)
    {
      var byte := nal[i];
      assert nal[i..][1..] == nal[i + 1..];
      if zeros >= 2 && byte == 3 {
        zeros := 0;
      } else {
        assert out + Unescape(nal[i..], zeros) == out + [byte] + Unescape(nal[i + 1..], if byte == 0 then zeros + 1 else 0);
        out := out + [byte];
        zeros := if byte == 0 then zeros + 1 else 0;
      }
    }
  }

  /** What a writer stores: a 3 before any byte up to 3 that follows two zeros. */
  function Escape(payload: Buffer, zeros: nat): Buffer {
    if |payload| == 0 then []
    else if zeros >= 2 && payload[0] <= 3 then
      [3, payload[0]] + Escape(payload[1..], if payload[0] == 0 then 1 else 0)
    else [payload[0]] + Escape(payload[1..], if payload[0] == 0 then zeros + 1 else 0)
  }

  lemma {:induction false} UnescapeEscape(payload: Buffer, zeros: nat)
    ensures Unescape(Escape(payload, zeros), zeros) == payload
  {
    if |payload| > 0 {
      var byte, stored := payload[0], Escape(payload, zeros);
      if zeros >= 2 && byte <= 3 {
        var rest := Escape(payload[1..], if byte == 0 then 1 else 0);
        UnescapeEscape(payload[1..], if byte == 0 then 1 else 0);
        assert stored[1..] == [byte] + rest;
        assert stored[1..][1..] == rest;
      } else {
        UnescapeEscape(payload[1..], if byte == 0 then zeros + 1 else 0);
        assert stored[1..] == Escape(payload[1..], if byte == 0 then zeros + 1 else 0);
      }
      assert payload == [byte] + payload[1..];
    }
  }

  // ---- the vcap SEI ----

  /** SHA-256("vcap/1.0/sei")[0:16]. */
  const SEI_UUID: Buffer := [0xca, 0xa6, 0x53, 0xd1, 0xed, 0x17, 0x63, 0xc7, 0xaf, 0x38, 0x8a, 0xea, 0x76, 0x52, 0x73, 0x36]

  datatype SeiReading =
    | NotVcap
    | Vcap(captureId: Buffer, index: nat)
    | BadShape(payloadSize: nat)
    | NotAlone(messages: nat)
    | BytesAfter

  function NalType(nal: Buffer, hevc: bool): nat {
    var header := if |nal| > 0 then nal[0] else 0;
    if hevc then header / 2 % 64 else header % 32
  }

  predicate IsSei(nal: Buffer, hevc: bool) {
    var kind := NalType(nal, hevc);
    if hevc then kind == 39 || kind == 40 else kind == 6
  }

  /** IDR access units: type 5 of H.264, types 19 and 20 of H.265. */
  predicate IsIdr(nal: Buffer, hevc: bool) {
    var kind := NalType(nal, hevc);
    if hevc then kind == 19 || kind == 20 else kind == 5
  }

  function Payload(nal: Buffer, hevc: bool): Buffer {
    var skip := if hevc then 2 else 1;
    if skip <= |nal| then nal[skip..] else []
  }

  /** Only rbsp_trailing_bits remain from `at` on. */
  predicate TrailingBits(body: Buffer, at: nat) {
    at < |body| && body[at] == 0x80 && forall i | at < i < |body| :: body[i] == 0
  }

  /** A value coded as bytes 0xff and a last byte below it: the sum, and the place after it. */
  function CodedValue(body: Buffer, at: nat, sum: nat): Option<(nat, nat)>
    decreases |body| - at
  {
    if at >= |body| then None
    else if body[at] == 0xff then CodedValue(body, at + 1, sum + 255)
    else Some((sum + body[at], at + 1))
  }

  /** Where the message loop of `vcapSei` stops, and what it met. */
  datatype Scan = Scan(at: nat, messages: nat, found: Option<SeiReading>)

  predicate NamesVcap(body: Buffer, at: nat, payloadType: nat, size: nat) {
    payloadType == 5 && size >= 16 && at + size <= |body| && body[at..at + 16] == SEI_UUID
  }

  function VcapPayload(body: Buffer, at: nat, size: nat): SeiReading
    requires size >= 16 && at + size <= |body|
  {
    if size == 36 then Vcap(body[at + 16..at + 32], ReadBigEndian(body[at + 32..at + 36])) else BadShape(size)
  }

  function ScanFrom(body: Buffer, at: nat, messages: nat, found: Option<SeiReading>): Scan
    decreases |body| - at
  {
    if at >= |body| || TrailingBits(body, at) then Scan(at, messages, found)
    else
      var kind := CodedValue(body, at, 0);
      if kind.None? then Scan(|body|, messages, found)
      else
        var size := CodedValue(body, kind.value.1, 0);
        if size.None? then Scan(|body|, messages, found)
        else
          CodedValueAdvances(body, at, 0);
          CodedValueAdvances(body, kind.value.1, 0);
          var (length, start) := size.value;
          if start + length > |body| then Scan(start, messages, found)
          else ScanFrom(body, start + length, messages + 1,
                        if NamesVcap(body, start, kind.value.0, length) then Some(VcapPayload(body, start, length)) else found)
  }

  lemma {:induction false} CodedValueAdvances(body: Buffer, at: nat, sum: nat)
    ensures CodedValue(body, at, sum).Some? ==> at < CodedValue(body, at, sum).value.1 <= |body|
    decreases |body| - at
  {
    if at < |body| && body[at] == 0xff {
      CodedValueAdvances(body, at + 1, sum + 255);
    }
  }

  /** What a NAL unit says about a capture. */
  function SeiOf(nal: Buffer, hevc: bool): SeiReading {
    if !IsSei(nal, hevc) then NotVcap
    else
      var body := Unescape(Payload(nal, hevc), 0);
      var scan := ScanFrom(body, 0, 0, None);
      if scan.found.None? then NotVcap
      else if scan.messages != 1 then NotAlone(scan.messages)
      else if !TrailingBits(body, scan.at) then BytesAfter
      else scan.found.value
  }

  method ReadCodedValue(body: Buffer, start: nat) returns (value: nat, at: nat, whole: bool)
    requires start <= |body|
    ensures whole <==> CodedValue(body, start, 0).Some?
    ensures whole ==> CodedValue(body, start, 0) == Some((value, at)) && start < at <= |body|
    ensures !whole ==> at == |body|
  {
    value, at := 0, start;
    while at < |body| && body[at] == 0xff
      invariant start <= at <= |body|
      invariant CodedValue(body, at, value) == CodedValue(body, start, 0)
    {
      value := value + 255;
      at := at + 1;
    }
    if at >= |body| {
      return value, at, false;
    }
    return value + body[at], at + 1, true;
  }

  /** The message loop: how many complete messages, and the last one with the vcap UUID. */
  method ScanMessages(body: Buffer) returns (scan: Scan)
    ensures scan == ScanFrom(body, 0, 0, None)
  {
    hide TrailingBits, NamesVcap, VcapPayload, CodedValue;
    var at, messages: nat := 0, 0;
    var found: Option<SeiReading> := None;
    while at < |body| && !TrailingBits(body, at)
      invariant 0 <= at <= |body|
      invariant ScanFrom(body, at, messages, found) == ScanFrom(body, 0, 0, None)
      decreases |body| - at
    {
      var payloadType, size: nat, whole;
      ghost var start := at;
      payloadType, at, whole := ReadCodedValue(body, at);
      if !whole {
        return Scan(at, messages, found);
      }
      size, at, whole := ReadCodedValue(body, at);
      if !whole {
        return Scan(at, messages, found);
      }
      if at + size > |body| {
        return Scan(at, messages, found);
      }
      messages := messages + 1;
      if NamesVcap(body, at, payloadType, size) {
        HasPayload(body, at, payloadType, size);
        found := Some(VcapPayload(body, at, size));
      }
      at := at + size;
    }
    scan := Scan(at, messages, found);
  }

  lemma HasPayload(body: Buffer, at: nat, payloadType: nat, size: nat)
    requires NamesVcap(body, at, payloadType, size)
    ensures size >= 16 && at + size <= |body|
  {
  }

  method VcapSei(nal: Buffer, hevc: bool) returns (reading: SeiReading)
    ensures reading == SeiOf(nal, hevc)
  {
    hide ScanFrom, TrailingBits;
    if !IsSei(nal, hevc) {
      return NotVcap;
    }
    var body := Rbsp(Payload(nal, hevc));
    var scan := ScanMessages(body);
    var at, messages, found := scan.at, scan.messages, scan.found;
    assert Scan(at, messages, found) == ScanFrom(body, 0, 0, None);
    if found.None? {
      return NotVcap;
    }
    if messages != 1 {
      return NotAlone(messages);
    }
    if !TrailingBits(body, at) {
      return BytesAfter;
    }
    return found.value;
  }

  /** The scan counts every complete message it reads, and only those change what it found. */
  lemma {:induction false} ScanCounts(body: Buffer, at: nat, messages: nat, found: Option<SeiReading>)
    ensures var scan := ScanFrom(body, at, messages, found);
            scan.messages >= messages && (scan.messages == messages ==> scan.found == found)
    decreases |body| - at
  {
    if at < |body| && !TrailingBits(body, at) {
      var kind := CodedValue(body, at, 0);
      if kind.Some? {
        var size := CodedValue(body, kind.value.1, 0);
        if size.Some? {
          CodedValueAdvances(body, at, 0);
          CodedValueAdvances(body, kind.value.1, 0);
          var (length, start) := size.value;
          if start + length <= |body| {
            ScanCounts(body, start + length, messages + 1,
                       if NamesVcap(body, start, kind.value.0, length) then Some(VcapPayload(body, start, length)) else found);
          }
        }
      }
    }
  }

  lemma {:induction false} SmallCodedValue(body: Buffer, at: nat, sum: nat)
    ensures CodedValue(body, at, sum).Some? ==> CodedValue(body, at, sum).value.0 >= sum
    ensures CodedValue(body, at, sum).Some? && CodedValue(body, at, sum).value.0 < sum + 255 ==>
              at < |body| && CodedValue(body, at, sum).value == (sum + body[at], at + 1)
    decreases |body| - at
  {
    if at < |body| && body[at] == 0xff {
      SmallCodedValue(body, at + 1, sum + 255);
    }
  }

  /** The one message a vcap SEI carries, unescaped. */
  function SeiMessage(captureId: Buffer, index: nat): Buffer {
    [5, 36] + SEI_UUID + captureId + BigEndian(index, 4)
  }

  /**
   A unit read as naming a capture starts with exactly the vcap message, and
   that is the only complete message of the unit.
   */
  lemma AcceptedSei(nal: Buffer, hevc: bool)
    requires SeiOf(nal, hevc).Vcap?
    ensures var reading := SeiOf(nal, hevc);
            var body := Unescape(Payload(nal, hevc), 0);
            && IsSei(nal, hevc)
            && |reading.captureId| == 16 && reading.index < Pow256(4)
            && SeiMessage(reading.captureId, reading.index) <= body
            && ScanFrom(body, 0, 0, None).messages == 1
  {
    var body := Unescape(Payload(nal, hevc), 0);
    var scan := ScanFrom(body, 0, 0, None);
    var kind := CodedValue(body, 0, 0).value;
    var size := CodedValue(body, kind.1, 0).value;
    CodedValueAdvances(body, 0, 0);
    CodedValueAdvances(body, kind.1, 0);
    var found := if NamesVcap(body, size.1, kind.0, size.0) then Some(VcapPayload(body, size.1, size.0)) else None;
    ScanCounts(body, size.1 + size.0, 1, found);
    assert found == Some(SeiOf(nal, hevc));
    SmallCodedValue(body, 0, 0);
    SmallCodedValue(body, 1, 0);
    MessageBytes(body, SeiOf(nal, hevc));
  }

  lemma MessageBytes(body: Buffer, reading: SeiReading)
    requires |body| >= 38 && body[0] == 5 && body[1] == 36 && body[2..18] == SEI_UUID
    requires reading == Vcap(body[18..34], ReadBigEndian(body[34..38]))
    ensures SeiMessage(reading.captureId, reading.index) == body[..38] && reading.index < Pow256(4)
  {
    WriteRead(body[34..38]);
    assert body[..38] == [body[0], body[1]] + body[2..18] + body[18..34] + body[34..38];
  }

  /** Every vcap SEI a writer emits names the capture and the segment it was written for. */
  lemma WrittenSei(header: Buffer, hevc: bool, captureId: Buffer, index: nat)
    requires |header| == (if hevc then 2 else 1) && IsSei(header, hevc)
    requires |captureId| == 16 && index < Pow256(4)
    ensures SeiOf(header + Escape(SeiMessage(captureId, index) + [0x80], 0), hevc) == Vcap(captureId, index)
  {
    var body := SeiMessage(captureId, index) + [0x80];
    var nal := header + Escape(body, 0);
    assert Payload(nal, hevc) == Escape(body, 0);
    UnescapeEscape(body, 0);
    assert nal[0] == header[0];
    assert body[2..18] == SEI_UUID && body[18..34] == captureId && body[34..38] == BigEndian(index, 4);
    ReadWritten(index, 4);
    ScanWritten(body, Vcap(captureId, index));
  }

  lemma ScanWritten(body: Buffer, reading: SeiReading)
    requires |body| == 39 && body[0] == 5 && body[1] == 36 && body[2..18] == SEI_UUID && body[38] == 0x80
    requires reading == Vcap(body[18..34], ReadBigEndian(body[34..38]))
    ensures ScanFrom(body, 0, 0, None) == Scan(38, 1, Some(reading)) && TrailingBits(body, 38)
  {
    assert CodedValue(body, 0, 0) == Some((5, 1));
    assert CodedValue(body, 1, 0) == Some((36, 2));
    assert NamesVcap(body, 2, 5, 36);
    assert TrailingBits(body, 38);
    assert ScanFrom(body, 38, 1, Some(reading)) == Scan(38, 1, Some(reading));
  }

  // ---- acceptance, exactly ----

  /**
   Where the trailing bits of an accepted unit begin: behind the one message, or behind
   a further header whose size runs past the end, which the loop reads and leaves there.
   */
  function GapEnd(body: Buffer): Option<nat> {
    if TrailingBits(body, 38) then Some(38)
    else
      var kind := CodedValue(body, 38, 0);
      if kind.None? then None
      else
        var size := CodedValue(body, kind.value.1, 0);
        if size.Some? && size.value.1 + size.value.0 > |body| && TrailingBits(body, size.value.1) then Some(size.value.1) else None
  }

  lemma AfterFirstMessage(body: Buffer, captureId: Buffer, index: nat)
    requires |captureId| == 16 && index < Pow256(4) && SeiMessage(captureId, index) <= body
    ensures |body| >= 38 && ScanFrom(body, 0, 0, None) == ScanFrom(body, 38, 1, Some(Vcap(captureId, index)))
  {
    var message := SeiMessage(captureId, index);
    assert body[..38] == message;
    assert message[2..18] == SEI_UUID && message[18..34] == captureId && message[34..38] == BigEndian(index, 4);
    assert body[2..18] == message[2..18] && body[18..34] == message[18..34] && body[34..38] == message[34..38];
    assert body[0] == message[0] && body[1] == message[1];
    ReadWritten(index, 4);
    hide SeiMessage, BigEndian, ReadBigEndian, Pow256;
    assert CodedValue(body, 0, 0) == Some((5, 1));
    assert CodedValue(body, 1, 0) == Some((36, 2));
    assert NamesVcap(body, 2, 5, 36);
  }

  /** After one message, no other is complete and only trailing bits are left exactly when there is such a place. */
  lemma OnlyOneMessage(body: Buffer, found: SeiReading)
    requires |body| >= 38
    ensures var scan := ScanFrom(body, 38, 1, Some(found));
            && (scan.messages == 1 && TrailingBits(body, scan.at) <==> GapEnd(body).Some?)
            && (scan.messages == 1 ==> scan.found == Some(found))
            && (GapEnd(body).Some? ==> scan.at == GapEnd(body).value)
  {
    hide TrailingBits, VcapPayload;
    ScanCounts(body, 38, 1, Some(found));
    var kind := CodedValue(body, 38, 0);
    if 38 < |body| && !TrailingBits(body, 38) && kind.Some? {
      var size := CodedValue(body, kind.value.1, 0);
      CodedValueAdvances(body, 38, 0);
      CodedValueAdvances(body, kind.value.1, 0);
      if size.Some? && size.value.1 + size.value.0 <= |body| {
        var (length, start) := size.value;
        HasNamedPayload(body, start, kind.value.0, length);
        ScanCounts(body, start + length, 2, if NamesVcap(body, start, kind.value.0, length) then Some(VcapPayload(body, start, length)) else Some(found));
      }
    }
    NoTrailingAtEnd(body);
  }

  lemma HasNamedPayload(body: Buffer, at: nat, payloadType: nat, size: nat)
    ensures NamesVcap(body, at, payloadType, size) ==> size >= 16 && at + size <= |body|
  {
  }

  lemma NoTrailingAtEnd(body: Buffer)
    ensures !TrailingBits(body, |body|)
  {
  }

  /**
   A unit is read as naming a capture and a segment exactly when it is an SEI unit, its
   payload starts with the message for them, and behind it there are only trailing bits,
   or trailing bits behind one cut header.
   */
  lemma AcceptedExact(nal: Buffer, hevc: bool, captureId: Buffer, index: nat)
    ensures var body := Unescape(Payload(nal, hevc), 0);
            SeiOf(nal, hevc) == Vcap(captureId, index) <==>
            && IsSei(nal, hevc) && |captureId| == 16 && index < Pow256(4)
            && SeiMessage(captureId, index) <= body && GapEnd(body).Some?
  {
    var body := Unescape(Payload(nal, hevc), 0);
    if SeiOf(nal, hevc) == Vcap(captureId, index) {
      AcceptedSei(nal, hevc);
    }
    hide TrailingBits, GapEnd, ScanFrom, Unescape, SeiMessage, Pow256;
    if |captureId| == 16 && index < Pow256(4) && SeiMessage(captureId, index) <= body {
      AfterFirstMessage(body, captureId, index);
      OnlyOneMessage(body, Vcap(captureId, index));
    }
  }

  /** Such a header does get through: two bytes between the message and the trailing bits of an accepted unit. */
  lemma CutHeaderAccepted(header: Buffer, hevc: bool, captureId: Buffer, index: nat) returns (nal: Buffer)
    requires |header| == (if hevc then 2 else 1) && IsSei(header, hevc)
    requires |captureId| == 16 && index < Pow256(4)
    ensures SeiOf(nal, hevc) == Vcap(captureId, index)
    ensures Unescape(Payload(nal, hevc), 0) == SeiMessage(captureId, index) + [1, 200] + [0x80]
  {
    var body := SeiMessage(captureId, index) + [1, 200] + [0x80];
    nal := header + Escape(body, 0);
    assert Payload(nal, hevc) == Escape(body, 0) && nal[0] == header[0];
    UnescapeEscape(body, 0);
    CutHeaderGap(body, SeiMessage(captureId, index));
    hide Unescape, Escape, SeiMessage, GapEnd, SeiOf;
    AcceptedExact(nal, hevc, captureId, index);
  }

  lemma CutHeaderGap(body: Buffer, message: Buffer)
    requires |message| == 38 && body == message + [1, 200] + [0x80]
    ensures GapEnd(body) == Some(40) && message <= body
  {
    assert body[38] == 1 && body[39] == 200 && body[40] == 0x80;
    assert CodedValue(body, 38, 0) == Some((1, 39));
    assert CodedValue(body, 39, 0) == Some((200, 40));
  }
}

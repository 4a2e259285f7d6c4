/**
 The fate of every byte: a file the verifier located without a problem has no byte in
 its video samples that no signature speaks for.
 */
module ByteFates {
  import opened ByteStrings
  import opened Primitives
  import opened SampleTables
  import opened Nal
  import opened Gops
  import opened Segments
  import opened Binding
  import opened ByteAccounting

  /** Where NAL unit `j` of a sample begins, prefix first. */
  function NalStart(nals: seq<Buffer>, width: nat, j: nat): nat
    requires j <= |nals|
  {
    if j == 0 then 0 else width + |nals[0]| + NalStart(nals[1..], width, j - 1)
  }

  /** Byte `p` of a sample is in the length prefix of unit `nal`, or is byte `within` of it. */
  predicate LiesIn(nals: seq<Buffer>, width: nat, p: nat, nal: nat, within: int, byte: Byte) {
    && nal < |nals| && p == NalStart(nals, width, nal) + width + within && 0 <= width + within && within < |nals[nal]|
    && (within >= 0 ==> byte == nals[nal][within])
  }

  lemma {:induction false} JoinPlace(nals: seq<Buffer>, width: nat, p: nat) returns (nal: nat, within: int)
    requires p < |Join(nals, width)|
    ensures LiesIn(nals, width, p, nal, within, Join(nals, width)[p])
  {
    hide BigEndian;
    var first := width + |nals[0]|;
    if p < first {
      nal, within := 0, p - width;
    } else {
      nal, within := JoinPlace(nals[1..], width, p - first);
      nal := nal + 1;
    }
  }

  /** Unit `u`'s NAL `j` among all the NALs of a run of units. */
  lemma NalPlace(units: seq<AccessUnit>, u: nat, j: nat)
    requires u < |units| && j < |units[u].nals|
    ensures var q := |AllNals(units[..u])| + j; q < |AllNals(units)| && AllNals(units)[q] == units[u].nals[j]
  {
    var rest := units[u..];
    NalsOfAll(units, u);
    NalsOfAll(rest, 1);
    assert rest[..1] == [units[u]];
    assert AllNals([units[u]]) == units[u].nals by {
      assert [units[u]][..0] == [];
    }
  }

  lemma ConcatPlace(parts: seq<Buffer>, q: nat) returns (from: nat)
    requires q < |parts|
    ensures from + |parts[q]| <= |Concat(parts)| && Concat(parts)[from..from + |parts[q]|] == parts[q]
  {
    from := |Concat(parts[..q])|;
    assert parts == parts[..q] + ([parts[q]] + parts[q + 1..]);
    ConcatAppend(parts[..q], [parts[q]] + parts[q + 1..]);
    assert ([parts[q]] + parts[q + 1..])[1..] == parts[q + 1..];
  }

  /** A NAL other than number `k` stands whole in the concatenation without it. */
  lemma OtherPlace(nals: seq<Buffer>, k: nat, q: nat, more: Buffer) returns (from: nat)
    requires k < |nals| && q < |nals| && q != k
    ensures var hashed := Concat(WithoutAt(nals, k)) + more;
            from + |nals[q]| <= |hashed| && hashed[from..from + |nals[q]|] == nals[q]
  {
    var others := WithoutAt(nals, k);
    var at := if q < k then q else q - 1;
    assert others[at] == nals[q];
    from := ConcatPlace(others, at);
    assert (Concat(others) + more)[from..from + |nals[q]|] == Concat(others)[from..from + |nals[q]|];
  }

  // ---- the bytes of the naming SEI ----

  /** The place in the unescaped payload that byte `r` of `payload` becomes; none for a dropped byte. */
  function BodyPlace(payload: Buffer, zeros: nat, r: nat): Option<nat>
    requires r < |payload|
  {
    if zeros >= 2 && payload[0] == 3 then
      if r == 0 then None else BodyPlace(payload[1..], 0, r - 1)
    else if r == 0 then Some(0)
    else
      var rest := BodyPlace(payload[1..], if payload[0] == 0 then zeros + 1 else 0, r - 1);
      if rest.None? then None else Some(rest.value + 1)
  }

  lemma {:induction false} BodyPlaceHolds(payload: Buffer, zeros: nat, r: nat)
    requires r < |payload|
    ensures var q, body := BodyPlace(payload, zeros, r), Unescape(payload, zeros);
            if q.None? then payload[r] == 3 else q.value < |body| && body[q.value] == payload[r]
  {
    if r > 0 {
      BodyPlaceHolds(payload[1..], if zeros >= 2 && payload[0] == 3 then 0 else if payload[0] == 0 then zeros + 1 else 0, r - 1);
    }
  }

  /**
   A byte of an SEI that names a capture and a segment: of the NAL header, a dropped
   emulation prevention byte, of the message, of a cut header behind it, or of the
   trailing bits.
   */
  datatype SeiPart = NalHeader | Dropped | InMessage(at: nat) | InCutHeader(at: nat) | InTrailingBits(at: nat)

  predicate PartOf(nal: Buffer, hevc: bool, captureId: Buffer, index: nat, within: nat, part: SeiPart)
    requires within < |nal|
  {
    var skip, payload := if hevc then 2 else 1, Payload(nal, hevc);
    var body := Unescape(payload, 0);
    if within < skip then part == NalHeader
    else
      var place := BodyPlace(payload, 0, within - skip);
      var end := GapEnd(body);
      match part
      case NalHeader => false
      case Dropped => place.None? && nal[within] == 3
      case InMessage(at) => place == Some(at) && at < 38 == |SeiMessage(captureId, index)| && nal[within] == SeiMessage(captureId, index)[at]
      case InCutHeader(at) => place == Some(at) && 38 <= at && end.Some? && at < end.value
      case InTrailingBits(at) => place == Some(at) && end.Some? && end.value <= at && nal[within] == if at == end.value then 0x80 else 0
  }

  lemma SeiByte(nal: Buffer, hevc: bool, captureId: Buffer, index: nat, within: nat) returns (part: SeiPart)
    requires SeiOf(nal, hevc) == Vcap(captureId, index) && within < |nal|
    ensures PartOf(nal, hevc, captureId, index, within, part)
  {
    AcceptedExact(nal, hevc, captureId, index);
    var skip, payload := if hevc then 2 else 1, Payload(nal, hevc);
    var body := Unescape(payload, 0);
    GapEndsInTrailingBits(body);
    hide SeiOf, GapEnd, SeiMessage, Unescape, BodyPlace;
    if within < skip {
      part := NalHeader;
    } else {
      BodyPlaceHolds(payload, 0, within - skip);
      assert payload[within - skip] == nal[within];
      var place := BodyPlace(payload, 0, within - skip);
      part := if place.None? then Dropped
              else if place.value < 38 then InMessage(place.value)
              else if place.value < GapEnd(body).value then InCutHeader(place.value)
              else InTrailingBits(place.value);
      MessageLength(captureId, index);
    }
  }

  lemma MessageLength(captureId: Buffer, index: nat)
    ensures |captureId| == 16 ==> |SeiMessage(captureId, index)| == 38
  {
  }

  lemma GapEndsInTrailingBits(body: Buffer)
    ensures GapEnd(body).Some? ==> 38 <= GapEnd(body).value && TrailingBits(body, GapEnd(body).value)
  {
    CodedValueAdvances(body, 38, 0);
    if CodedValue(body, 38, 0).Some? {
      CodedValueAdvances(body, CodedValue(body, 38, 0).value.1, 0);
    }
  }

  datatype Fate =
    | InPrefix(nal: nat)
    | InHashed(nal: nat, within: nat, from: nat)
    | InNamingSei(nal: nat, within: nat, part: SeiPart)

  /**
   What becomes of a byte of unit `nals` in GOP `gop`: it is in a length prefix; or in a
   NAL that stands whole, from `from` on, in the bytes the GOP's signed hash covers; or
   in the SEI that names this capture and the segment credited. That SEI is no
   part of the hash: its message and trailing bits are fixed, and its NAL header, dropped
   bytes and a cut header are not.
   */
  predicate Accounts(nals: seq<Buffer>, width: nat, hevc: bool, p: nat, byte: Byte, gop: Segment, captureId: Buffer, fate: Fate) {
    match fate
    case InPrefix(nal) => nal < |nals| && NalStart(nals, width, nal) <= p < NalStart(nals, width, nal) + width
    case InHashed(nal, within, from) =>
      && LiesIn(nals, width, p, nal, within, byte) && SeiOf(nals[nal], hevc).NotVcap?
      && from + |nals[nal]| <= |gop.hashed| && gop.hashed[from..from + |nals[nal]|] == nals[nal]
    case InNamingSei(nal, within, part) =>
      && LiesIn(nals, width, p, nal, within, byte)
      && gop.index.Some? && SeiOf(nals[nal], hevc) == Vcap(captureId, gop.index.value)
      && PartOf(nals[nal], hevc, captureId, gop.index.value, within, part)
  }

  /** In a GOP the verifier binds. */
  lemma BoundGopFate(h: Hash, b64: Base64, signed: map<int, SegmentEntry>, captureId: Buffer, hevc: bool, width: nat,
                     units: seq<AccessUnit>, frames: seq<Frame>, u: nat, p: nat) returns (fate: Fate)
    requires |units| > 0 && AllStored(frames) && u < |units| && p < |Join(units[u].nals, width)|
    requires Bound(b64, signed, captureId, SegmentOf(h, hevc, units, frames))
    ensures Accounts(units[u].nals, width, hevc, p, Join(units[u].nals, width)[p], SegmentOf(h, hevc, units, frames), captureId, fate)
  {
    hide AllNals, SegmentOf, Join, NalStart, SeiOf, FrameBytes;
    var k := BoundGopBytes(h, b64, signed, captureId, hevc, units, frames);
    hide Bound;
    var nal, within := JoinPlace(units[u].nals, width, p);
    var nals := AllNals(units);
    NalPlace(units, u, nal);
    var q := |AllNals(units[..u])| + nal;
    if within < 0 {
      fate := InPrefix(nal);
    } else if q == k {
      BoundHasIndex(h, b64, signed, captureId, hevc, units, frames);
      hide PartOf;
      var part := SeiByte(units[u].nals[nal], hevc, captureId, SegmentOf(h, hevc, units, frames).index.value, within);
      fate := InNamingSei(nal, within, part);
    } else {
      var from := OtherPlace(nals, k, q, FrameBytes(frames));
      fate := InHashed(nal, within, from);
    }
  }

  lemma BoundHasIndex(h: Hash, b64: Base64, signed: map<int, SegmentEntry>, captureId: Buffer, hevc: bool, units: seq<AccessUnit>, frames: seq<Frame>)
    requires |units| > 0 && AllStored(frames)
    ensures Bound(b64, signed, captureId, SegmentOf(h, hevc, units, frames)) ==> SegmentOf(h, hevc, units, frames).index.Some?
  {
  }

  /** GOP `g` is the one GOP whose units include unit `i`. */
  ghost predicate OnlyGop(units: seq<AccessUnit>, i: nat, g: nat) {
    var starts := Starts(units);
    && g < |starts| && starts[g] <= i < EndOf(units, starts, g)
    && forall k | 0 <= k < |starts| && starts[k] <= i < EndOf(units, starts, k) :: k == g
  }

  /**
   Every byte of every video sample of a file located without a problem: it belongs to
   one GOP, and there it is a length prefix, or part of a NAL that the GOP's signed hash
   covers whole, or part of the SEI naming this capture.
   */
  lemma EveryByteAccounted(h: Hash, b64: Base64, file: Buffer, video: Track, audio: Option<Track>, presentation: Option<Presentation>, layout: Option<string>,
                           captureId: Buffer, entries: seq<SegmentEntry>, i: nat, p: nat) returns (g: nat, fate: Fate)
    requires video.lengthSize > 0
    requires var reading := ReadingOf(h, file, Some(video), audio, presentation, layout);
             reading.Read? && var binding := BindingOf(b64, reading, captureId, entries); binding.Located? && binding.problems == []
    requires i < |video.samples| && p < video.samples[i].size
    ensures UnitsReadable(file, video) && video.samples[i].offset + video.samples[i].size <= |file|
    ensures OnlyGop(UnitsOf(file, video), i, g)
    ensures var gops := ReadingOf(h, file, Some(video), audio, presentation, layout).gops;
            g < |gops| && Accounts(UnitsOf(file, video)[i].nals, video.lengthSize, video.hevc, p, file[video.samples[i].offset + p], gops[g], captureId, fate)
  {
    var reading := ReadingOf(h, file, Some(video), audio, presentation, layout);
    LocatedIsBound(b64, reading, captureId, entries);
    SampleRead(h, file, video, audio, presentation, layout, i);
    hide ReadingOf, BindingOf, SegmentOf, Join, UnitOf, AllStored, FramesIn, Accounts, Bound, OnlyGop, UnitsReadable;
    g := UnitsGop(UnitsOf(file, video), i);
    GopRead(h, file, video, audio, presentation, layout, g);
    fate := GopFate(h, b64, file, video, audio, presentation, layout, captureId, ByIndex(entries), i, p, g);
  }

  lemma SampleRead(h: Hash, file: Buffer, video: Track, audio: Option<Track>, presentation: Option<Presentation>, layout: Option<string>, i: nat)
    requires video.lengthSize > 0 && i < |video.samples|
    requires ReadingOf(h, file, Some(video), audio, presentation, layout).Read?
    ensures UnitsReadable(file, video) && |UnitsOf(file, video)| == |video.samples|
    ensures var sample := video.samples[i];
            sample.offset + sample.size <= |file| && Join(UnitsOf(file, video)[i].nals, video.lengthSize) == file[sample.offset..sample.offset + sample.size]
  {
    hide UnitOf, Join, GopsOf;
    assert UnitOf(file, video, video.samples[i]).Some?;
    SampleIsItsUnits(file, video, video.samples[i]);
  }

  lemma UnitsGop(units: seq<AccessUnit>, i: nat) returns (g: nat)
    requires i < |units|
    ensures OnlyGop(units, i, g)
    ensures g < |Starts(units)| && Starts(units)[g] <= i && i - Starts(units)[g] < |UnitsIn(units, g)|
    ensures UnitsIn(units, g)[i - Starts(units)[g]] == units[i]
  {
    g := UnitInOneGop(units, i);
    StartsPartition(units, |units|);
    hide StartsUpTo;
  }

  ghost function TakenFrames(file: Buffer, video: Track, audio: Option<Track>, g: nat): seq<Frame>
    requires video.lengthSize > 0 && UnitsReadable(file, video) && g < |Starts(UnitsOf(file, video))|
  {
    FramesIn(video, audio, UnitsOf(file, video), if audio.Some? then FramesOf(file, audio.value.samples) else [], g)
  }

  lemma GopRead(h: Hash, file: Buffer, video: Track, audio: Option<Track>, presentation: Option<Presentation>, layout: Option<string>, g: nat)
    requires video.lengthSize > 0 && UnitsReadable(file, video) && g < |Starts(UnitsOf(file, video))|
    requires ReadingOf(h, file, Some(video), audio, presentation, layout).Read?
    ensures AllStored(TakenFrames(file, video, audio, g))
    ensures var gops := ReadingOf(h, file, Some(video), audio, presentation, layout).gops;
            g < |gops| && gops[g] == SegmentOf(h, video.hevc, UnitsIn(UnitsOf(file, video), g), TakenFrames(file, video, audio, g))
  {
    hide UnitsOf, SegmentOf, FramesIn, AllStored, UnitsReadable, UnitsIn, Starts;
  }

  lemma GopFate(h: Hash, b64: Base64, file: Buffer, video: Track, audio: Option<Track>, presentation: Option<Presentation>, layout: Option<string>,
                captureId: Buffer, signed: map<int, SegmentEntry>, i: nat, p: nat, g: nat) returns (fate: Fate)
    requires video.lengthSize > 0 && UnitsReadable(file, video) && i < |video.samples| == |UnitsOf(file, video)| && g < |Starts(UnitsOf(file, video))|
    requires ReadingOf(h, file, Some(video), audio, presentation, layout).Read?
    requires var sample := video.samples[i];
             p < sample.size && sample.offset + sample.size <= |file|
             && Join(UnitsOf(file, video)[i].nals, video.lengthSize) == file[sample.offset..sample.offset + sample.size]
    requires var units := UnitsOf(file, video);
             Starts(units)[g] <= i && i - Starts(units)[g] < |UnitsIn(units, g)| && UnitsIn(units, g)[i - Starts(units)[g]] == units[i]
    requires AllStored(TakenFrames(file, video, audio, g))
    requires var gops := ReadingOf(h, file, Some(video), audio, presentation, layout).gops;
             g < |gops| && gops[g] == SegmentOf(h, video.hevc, UnitsIn(UnitsOf(file, video), g), TakenFrames(file, video, audio, g))
             && Bound(b64, signed, captureId, gops[g])
    ensures Accounts(UnitsOf(file, video)[i].nals, video.lengthSize, video.hevc, p, file[video.samples[i].offset + p],
                     ReadingOf(h, file, Some(video), audio, presentation, layout).gops[g], captureId, fate)
  {
    hide ReadingOf, UnitsOf, SegmentOf, Join, AllStored, TakenFrames, Accounts, Bound, UnitsReadable, UnitsIn, Starts;
    var units := UnitsOf(file, video);
    fate := BoundGopFate(h, b64, signed, captureId, video.hevc, video.lengthSize, UnitsIn(units, g), TakenFrames(file, video, audio, g), i - Starts(units)[g], p);
  }

  lemma LocatedIsBound(b64: Base64, reading: Reading, captureId: Buffer, entries: seq<SegmentEntry>)
    requires reading.Read? && var binding := BindingOf(b64, reading, captureId, entries); binding.Located? && binding.problems == []
    ensures AllBound(b64, ByIndex(entries), captureId, reading.gops)
  {
    BindingExact(b64, reading, captureId, entries);
  }
}

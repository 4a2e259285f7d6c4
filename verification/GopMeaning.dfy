/**
 What a reading says of the file's own units (tools/src/container.ts): which NAL units are
 IDR pictures and SEIs, what an SEI that is no accepted vcap one is, and what a GOP's
 index, count, problem and timing are.
 */
module GopMeaning {
  import opened ByteStrings
  import opened Primitives
  import opened SampleTables
  import opened Timing
  import opened Nal
  import opened Gops

  /** The unit types of H.264 and H.265 by the first byte of the header, whatever the bits around the type. */
  lemma UnitTypes(nal: Buffer)
    requires |nal| > 0
    ensures IsIdr(nal, false) <==> nal[0] in {0x05, 0x25, 0x45, 0x65, 0x85, 0xa5, 0xc5, 0xe5}
    ensures IsSei(nal, false) <==> nal[0] in {0x06, 0x26, 0x46, 0x66, 0x86, 0xa6, 0xc6, 0xe6}
    ensures IsIdr(nal, true) <==> nal[0] in {0x26, 0x27, 0x28, 0x29, 0xa6, 0xa7, 0xa8, 0xa9}
    ensures IsSei(nal, true) <==> nal[0] in {0x4e, 0x4f, 0x50, 0x51, 0xce, 0xcf, 0xd0, 0xd1}
  {
  }

  // ---- the bytes of an SEI's payload ----

  /** An emulation prevention byte: a 3 behind two zero bytes. */
  predicate Prevents(payload: Buffer, r: nat)
    requires r < |payload|
  {
    r >= 2 && payload[r] == 3 && payload[r - 1] == 0 && payload[r - 2] == 0
  }

  /** The bytes from `r` on without those. */
  function Freed(payload: Buffer, r: nat): Buffer
    requires r <= |payload|
    decreases |payload| - r
  {
    if r == |payload| then [] else (if Prevents(payload, r) then [] else [payload[r]]) + Freed(payload, r + 1)
  }

  /** How many zero bytes stand right in front of `r`. */
  function ZerosBefore(payload: Buffer, r: nat): nat
    requires r <= |payload|
  {
    if r > 0 && payload[r - 1] == 0 then 1 + ZerosBefore(payload, r - 1) else 0
  }

  /** Removing emulation prevention drops exactly those bytes, in any payload. */
  lemma {:induction false} UnescapeExact(payload: Buffer, r: nat)
    requires r <= |payload|
    ensures Unescape(payload[r..], ZerosBefore(payload, r)) == Freed(payload, r)
    decreases |payload| - r
  {
    if r < |payload| {
      UnescapeExact(payload, r + 1);
      assert payload[r..][0] == payload[r] && payload[r..][1..] == payload[r + 1..];
      assert ZerosBefore(payload, r) >= 2 <==> r >= 2 && payload[r - 1] == 0 && payload[r - 2] == 0;
    }
  }

  /** A coded value: bytes 0xff, counted as 255 each, and a last byte below that; none where the bytes end first. */
  lemma {:induction false} CodedExact(body: Buffer, at: nat, sum: nat, k: nat)
    requires at + k <= |body| && forall i | at <= i < at + k :: body[i] == 0xff
    ensures at + k == |body| ==> CodedValue(body, at, sum) == None
    ensures at + k < |body| && body[at + k] != 0xff ==> CodedValue(body, at, sum) == Some((sum + 255 * k + body[at + k], at + k + 1))
    decreases k
  {
    if k > 0 {
      CodedExact(body, at + 1, sum + 255, k - 1);
    }
  }

  /** Trailing bits: 0x80 and nothing but zeros behind it. */
  lemma TrailingExact(body: Buffer, at: nat)
    ensures TrailingBits(body, at) <==> at < |body| && body[at..] == [0x80] + seq(|body| - at - 1, _ => 0)
  {
    if at < |body| {
      var tail: Buffer := [0x80] + seq(|body| - at - 1, _ => 0);
      assert forall i | 0 <= i < |body| - at :: body[at..][i] == body[at + i];
      if body[at..] == tail {
        forall i | at < i < |body|
          ensures body[i] == 0
        {
          assert body[i] == body[at..][i - at] == tail[i - at];
        }
        assert body[at] == tail[0];
      }
    }
  }

  // ---- the messages of an SEI ----

  /** A complete message: its type and where its payload lies. */
  datatype Message = Message(kind: nat, from: nat, size: nat)

  /** The complete messages from `at` on, and where reading them stops. */
  function MessagesFrom(body: Buffer, at: nat): (seq<Message>, nat)
    decreases |body| - at
  {
    if at >= |body| || TrailingBits(body, at) then ([], at)
    else
      var kind := CodedValue(body, at, 0);
      if kind.None? then ([], |body|)
      else
        var size := CodedValue(body, kind.value.1, 0);
        if size.None? then ([], |body|)
        else
          CodedValueAdvances(body, at, 0);
          CodedValueAdvances(body, kind.value.1, 0);
          var (length, start) := size.value;
          if start + length > |body| then ([], start)
          else
            var (rest, end) := MessagesFrom(body, start + length);
            ([Message(kind.value.0, start, length)] + rest, end)
  }

  /** User data under the vcap identifier. */
  predicate IsVcap(body: Buffer, m: Message) {
    m.kind == 5 && m.size >= 16 && m.from + m.size <= |body| && body[m.from..m.from + 16] == SEI_UUID
  }

  /** One step of the reader and of the list: both stop, or both pass message `m`. */
  lemma OneMessage(body: Buffer, at: nat, messages: nat, found: Option<SeiReading>) returns (m: Option<Message>)
    ensures m.None? ==> MessagesFrom(body, at).0 == [] && ScanFrom(body, at, messages, found) == Scan(MessagesFrom(body, at).1, messages, found)
    ensures m.Some? ==>
              && at < m.value.from + m.value.size <= |body|
              && MessagesFrom(body, at) == ([m.value] + MessagesFrom(body, m.value.from + m.value.size).0, MessagesFrom(body, m.value.from + m.value.size).1)
              && ScanFrom(body, at, messages, found)
              == ScanFrom(body, m.value.from + m.value.size, messages + 1, if IsVcap(body, m.value) then Some(VcapPayload(body, m.value.from, m.value.size)) else found)
  {
    hide TrailingBits, VcapPayload;
    m := None;
    if at < |body| && !TrailingBits(body, at) {
      var kind := CodedValue(body, at, 0);
      if kind.Some? {
        var size := CodedValue(body, kind.value.1, 0);
        if size.Some? {
          CodedValueAdvances(body, at, 0);
          CodedValueAdvances(body, kind.value.1, 0);
          var (length, start) := size.value;
          if start + length <= |body| {
            m := Some(Message(kind.value.0, start, length));
            assert NamesVcap(body, start, kind.value.0, length) <==> IsVcap(body, m.value);
          }
        }
      }
    }
  }

  lemma {:induction false} ScanIsMessages(body: Buffer, at: nat, messages: nat, found: Option<SeiReading>)
    ensures var (list, end) := MessagesFrom(body, at);
            var scan := ScanFrom(body, at, messages, found);
            && scan.at == end && scan.messages == messages + |list|
            && (!SomeVcap(body, list) ==> scan.found == found)
            && (SomeVcap(body, list) || found.Some? ==> scan.found.Some?)
            && (|list| == 1 && IsVcap(body, list[0]) ==> scan.found == Some(VcapPayload(body, list[0].from, list[0].size)))
    decreases |body| - at
  {
    var m := OneMessage(body, at, messages, found);
    hide TrailingBits, VcapPayload, ScanFrom, MessagesFrom, SomeVcap;
    if m.Some? {
      var named := IsVcap(body, m.value);
      var next := m.value.from + m.value.size;
      ScanIsMessages(body, next, messages + 1, if named then Some(VcapPayload(body, m.value.from, m.value.size)) else found);
      var rest := MessagesFrom(body, next).0;
      SomeCons(body, m.value, rest);
      assert rest == [] ==> !SomeVcap(body, rest) by { NoneVcap(body); }
    } else {
      NoneVcap(body);
    }
  }

  lemma NoneVcap(body: Buffer)
    ensures !SomeVcap(body, [])
  {
  }

  lemma SomeCons(body: Buffer, first: Message, rest: seq<Message>)
    ensures SomeVcap(body, [first] + rest) <==> IsVcap(body, first) || SomeVcap(body, rest)
  {
    hide IsVcap;
    var list := [first] + rest;
    assert list[0] == first && forall i | 0 <= i < |rest| :: list[i + 1] == rest[i];
    if SomeVcap(body, list) && !IsVcap(body, first) {
      var i :| 0 <= i < |list| && IsVcap(body, list[i]);
      assert rest[i - 1] == list[i];
    }
  }

  predicate SomeVcap(body: Buffer, list: seq<Message>) {
    exists i | 0 <= i < |list| :: IsVcap(body, list[i])
  }

  /** What an SEI with a vcap message among these is read as, its messages ending at `end`. */
  function VcapReading(body: Buffer, list: seq<Message>, end: nat): SeiReading
    requires SomeVcap(body, list)
  {
    if |list| != 1 then NotAlone(|list|)
    else if !TrailingBits(body, end) then BytesAfter
    else if list[0].size != 36 then BadShape(list[0].size)
    else Vcap(body[list[0].from + 16..list[0].from + 32], ReadBigEndian(body[list[0].from + 32..list[0].from + 36]))
  }

  /**
   Every outcome of the reader. A unit is hashed when it is no SEI or none of its messages
   is a vcap one; otherwise it is refused unless that is its only message, is followed by
   trailing bits alone and has a payload of 36 bytes.
   */
  lemma SeiExact(nal: Buffer, hevc: bool)
    ensures var body := Unescape(Nal.Payload(nal, hevc), 0);
            var (list, end) := MessagesFrom(body, 0);
            SeiOf(nal, hevc) == if IsSei(nal, hevc) && SomeVcap(body, list) then VcapReading(body, list, end) else NotVcap
  {
    var body := Unescape(Nal.Payload(nal, hevc), 0);
    ScanIsMessages(body, 0, 0, None);
    hide ScanFrom, TrailingBits, MessagesFrom, CodedValue, Unescape, ReadBigEndian;
    var (list, end) := MessagesFrom(body, 0);
    if SomeVcap(body, list) {
      var i :| 0 <= i < |list| && IsVcap(body, list[i]);
      assert |list| == 1 ==> i == 0;
    }
  }

  // ---- a GOP's own fields ----

  /** NAL `k` is the first that carries a vcap SEI. */
  predicate FirstSei(nals: seq<Buffer>, hevc: bool, k: nat) {
    k < |nals| && SeiOf(nals[k], hevc).Vcap? && forall j | 0 <= j < k :: !SeiOf(nals[j], hevc).Vcap?
  }

  /** NAL `k` is the first whose SEI is refused. */
  predicate FirstRefused(nals: seq<Buffer>, hevc: bool, k: nat) {
    k < |nals| && Refused(SeiOf(nals[k], hevc)) && forall j | 0 <= j < k :: !Refused(SeiOf(nals[j], hevc))
  }

  predicate Refused(sei: SeiReading) {
    sei.BadShape? || sei.NotAlone? || sei.BytesAfter?
  }

  lemma {:induction false} SeisExact(nals: seq<Buffer>, hevc: bool) returns (first: nat)
    ensures if SeisIn(nals, hevc) == [] then forall k | 0 <= k < |nals| :: !SeiOf(nals[k], hevc).Vcap?
            else FirstSei(nals, hevc, first) && SeisIn(nals, hevc)[0] == SeiOf(nals[first], hevc)
  {
    hide SeiOf;
    first := 0;
    if |nals| > 0 {
      var n := |nals| - 1;
      first := SeisExact(nals[..n], hevc);
      assert forall j | 0 <= j < n :: nals[..n][j] == nals[j];
      if SeisIn(nals[..n], hevc) == [] {
        first := n;
      }
    }
  }

  /** Which NALs carry a vcap SEI. */
  function SeiPlaces(nals: seq<Buffer>, hevc: bool): set<nat> {
    set k: nat | k < |nals| && SeiOf(nals[k], hevc).Vcap?
  }

  lemma {:induction false} SeisCount(nals: seq<Buffer>, hevc: bool)
    ensures |SeisIn(nals, hevc)| == |SeiPlaces(nals, hevc)|
  {
    hide SeiOf;
    if |nals| > 0 {
      var n: nat := |nals| - 1;
      SeisCount(nals[..n], hevc);
      assert forall j | 0 <= j < n :: nals[..n][j] == nals[j];
      assert SeiPlaces(nals, hevc) == SeiPlaces(nals[..n], hevc) + if SeiOf(nals[n], hevc).Vcap? then {n} else {};
    }
  }

  lemma {:induction false} ProblemExact(nals: seq<Buffer>, hevc: bool) returns (first: nat)
    ensures if ProblemIn(nals, hevc).None? then forall k | 0 <= k < |nals| :: !Refused(SeiOf(nals[k], hevc))
            else FirstRefused(nals, hevc, first) && ProblemIn(nals, hevc) == Some(SeiOf(nals[first], hevc))
  {
    hide SeiOf;
    first := 0;
    if |nals| > 0 {
      var n := |nals| - 1;
      first := ProblemExact(nals[..n], hevc);
      assert forall j | 0 <= j < n :: nals[..n][j] == nals[j];
      if ProblemIn(nals[..n], hevc).None? {
        first := n;
      }
    }
  }

  /** The index and capture a GOP is read with are its first vcap SEI's; it counts them all, and reports the first that is refused. */
  lemma GopNames(h: Hash, hevc: bool, units: seq<AccessUnit>, frames: seq<Frame>) returns (sei: nat, refused: nat)
    requires |units| > 0 && AllStored(frames)
    ensures var gop, nals := SegmentOf(h, hevc, units, frames), AllNals(units);
            && gop.seiCount == |SeiPlaces(nals, hevc)|
            && (if gop.seiCount == 0 then gop.index.None? && gop.captureId.None?
                else FirstSei(nals, hevc, sei) && gop.index.Some? && gop.captureId.Some? && SeiOf(nals[sei], hevc) == Vcap(gop.captureId.value, gop.index.value))
            && (if gop.problem.None? then forall k | 0 <= k < |nals| :: !Refused(SeiOf(nals[k], hevc))
                else FirstRefused(nals, hevc, refused) && gop.problem == Some(SeiOf(nals[refused], hevc)))
  {
    hide AllNals, SeiOf, HashedNals, FrameBytes, TimingOf, VideoExtentOf, AudioExtent, SeisIn, ProblemIn, AllStored, SeiPlaces, FirstSei, FirstRefused, Refused;
    sei := SeisExact(AllNals(units), hevc);
    SeisCount(AllNals(units), hevc);
    refused := ProblemExact(AllNals(units), hevc);
  }

  /** Two GOPs have the same timing values exactly when their units and frames follow each other alike, wherever on the timeline they start. */
  lemma TimingExact(units: seq<AccessUnit>, frames: seq<Frame>, units': seq<AccessUnit>, frames': seq<Frame>)
    requires |units| > 0 && |units'| > 0
    ensures TimingOf(units, frames) == TimingOf(units', frames') <==>
            && |units| == |units'| && |frames| == |frames'|
            && (forall i | 0 <= i < |units| :: units[i].dts - units[0].dts == units'[i].dts - units'[0].dts && units[i].cts == units'[i].cts)
            && units[|units| - 1].duration == units'[|units'| - 1].duration
            && forall j | 0 <= j < |frames| :: frames[j].dts - frames[0].dts == frames'[j].dts - frames'[0].dts && frames[j].duration == frames'[j].duration
  {
    var t, t' := TimingOf(units, frames), TimingOf(units', frames');
    if t == t' {
      assert |t.videoDts| == |t'.videoDts| && |t.audioDts| == |t'.audioDts|;
      forall i | 0 <= i < |units|
        ensures units[i].dts - units[0].dts == units'[i].dts - units'[0].dts && units[i].cts == units'[i].cts
      {
        assert t.videoDts[i] == t'.videoDts[i] && t.videoCts[i] == t'.videoCts[i];
      }
      forall j | 0 <= j < |frames|
        ensures frames[j].dts - frames[0].dts == frames'[j].dts - frames'[0].dts && frames[j].duration == frames'[j].duration
      {
        assert t.audioDts[j] == t'.audioDts[j] && t.audioDur[j] == t'.audioDur[j];
      }
    }
  }

  /** Each unit begins where the one before it ends, as the units of a track do. */
  ghost predicate Follow(units: seq<AccessUnit>) {
    forall i | 0 <= i && i + 1 < |units| :: units[i + 1].dts == units[i].dts + units[i].duration
  }

  /** A unit is shown from its decode time plus its offset, as long as it lasts. */
  function ShownFrom(unit: AccessUnit): int {
    unit.dts + unit.cts
  }

  function ShownUntil(unit: AccessUnit): int {
    unit.dts + unit.cts + unit.duration
  }

  lemma ShownIsUnit(units: seq<AccessUnit>, frames: seq<Frame>, i: nat)
    requires i < |units| && Follow(units)
    ensures Shown(TimingOf(units, frames), i) == Extent(ShownFrom(units[i]) - units[0].dts, ShownUntil(units[i]) - units[0].dts)
  {
    if i + 1 < |units| {
      assert units[i + 1].dts == units[i].dts + units[i].duration;
    }
  }

  lemma ExtentIs(h: Hash, hevc: bool, units: seq<AccessUnit>, frames: seq<Frame>)
    requires |units| > 0 && AllStored(frames)
    ensures var t := TimingOf(units, frames);
            SegmentOf(h, hevc, units, frames).videoExtent == Extent(units[0].dts + Earliest(t, |units|), units[0].dts + Latest(t, |units|))
  {
    SegmentExtent(h, hevc, units, frames);
    hide SegmentOf, Shown, Earliest, Latest, AllStored;
  }

  lemma SegmentExtent(h: Hash, hevc: bool, units: seq<AccessUnit>, frames: seq<Frame>)
    requires |units| > 0 && AllStored(frames)
    ensures SegmentOf(h, hevc, units, frames).videoExtent == VideoExtentOf(TimingOf(units, frames), units[0].dts)
  {
    hide AllNals, HashedNals, SeisIn, ProblemIn, FrameBytes, AudioExtent, AllStored, TimingOf, VideoExtentOf;
  }

  /** A GOP's extent runs from the earliest instant one of its units is shown to the latest one ends. */
  lemma ExtentExact(h: Hash, hevc: bool, units: seq<AccessUnit>, frames: seq<Frame>)
    requires |units| > 0 && AllStored(frames) && Follow(units)
    ensures var extent := SegmentOf(h, hevc, units, frames).videoExtent;
            && (forall i | 0 <= i < |units| :: extent.start <= ShownFrom(units[i]) && ShownUntil(units[i]) <= extent.end)
            && (exists i | 0 <= i < |units| :: extent.start == ShownFrom(units[i]))
            && exists i | 0 <= i < |units| :: extent.end == ShownUntil(units[i])
  {
    hide TimingOf, SegmentOf, Shown, Earliest, Latest, Follow, AllStored, ShownFrom, ShownUntil;
    var t, n := TimingOf(units, frames), |units|;
    ExtentIs(h, hevc, units, frames);
    ExtentIsTight(t, n);
    forall i | 0 <= i < n
      ensures Shown(t, i) == Extent(ShownFrom(units[i]) - units[0].dts, ShownUntil(units[i]) - units[0].dts)
    {
      ShownIsUnit(units, frames, i);
    }
    var first :| 0 <= first < n && Earliest(t, n) == Shown(t, first).start;
    var last :| 0 <= last < n && Latest(t, n) == Shown(t, last).end;
    assert ShownFrom(units[first]) == units[0].dts + Earliest(t, n) && ShownUntil(units[last]) == units[0].dts + Latest(t, n);
  }

  // ---- which reading it is ----

  /** The sample lies in the file and is units, each behind its length and none empty. */
  ghost predicate IsUnits(file: Buffer, video: Track, sample: Sample)
    requires video.lengthSize > 0
  {
    && sample.offset + sample.size <= |file|
    && exists nals :: Storable(nals, video.lengthSize) && file[sample.offset..sample.offset + sample.size] == Join(nals, video.lengthSize)
  }

  lemma UnitExact(file: Buffer, video: Track, sample: Sample)
    requires video.lengthSize > 0
    ensures UnitOf(file, video, sample).Some? <==> IsUnits(file, video, sample)
  {
    hide Nals, Join, Storable;
    if sample.offset + sample.size <= |file| {
      var data := file[sample.offset..sample.offset + sample.size];
      if Nals(data, video.lengthSize).Some? {
        NalsExact(data, video.lengthSize, Nals(data, video.lengthSize).value);
      }
      if IsUnits(file, video, sample) {
        var nals :| Storable(nals, video.lengthSize) && data == Join(nals, video.lengthSize);
        NalsExact(data, video.lengthSize, nals);
      }
    }
  }

  predicate Unmodelled(video: Option<Track>, audio: Option<Track>) {
    video.None? || video.value.unsupportedEdit.Some? || (audio.Some? && audio.value.unsupportedEdit.Some?)
  }

  /** Some GOP takes an audio frame that lies beyond the end of the file. */
  predicate TakesMissing(file: Buffer, video: Track, audio: Option<Track>)
    requires video.lengthSize > 0 && UnitsReadable(file, video)
  {
    var units, frames := UnitsOf(file, video), if audio.Some? then FramesOf(file, audio.value.samples) else [];
    MissesFrames(video, audio, units, frames)
  }

  predicate MissesFrames(video: Track, audio: Option<Track>, units: seq<AccessUnit>, frames: seq<Frame>) {
    exists g | 0 <= g < |Starts(units)| :: !AllStored(FramesIn(video, audio, units, frames, g))
  }

  /**
   A file without a video track, or with an edit list that is not modelled, is unreadable;
   one with a video sample that is no list of units, or with a missing audio frame that a
   GOP takes, is malformed; and from any other every GOP is read.
   */
  lemma ReadingExact(h: Hash, file: Buffer, video: Option<Track>, audio: Option<Track>, presentation: Option<Presentation>, layout: Option<string>)
    requires video.Some? ==> video.value.lengthSize > 0
    ensures var reading := ReadingOf(h, file, video, audio, presentation, layout);
            && (reading.Unreadable? <==> Unmodelled(video, audio))
            && (!Unmodelled(video, audio) ==>
                  var v := video.value;
                  && (UnitsReadable(file, v) <==> forall i | 0 <= i < |v.samples| :: IsUnits(file, v, v.samples[i]))
                  && (reading.Malformed? <==> !UnitsReadable(file, v) || TakesMissing(file, v, audio))
                  && (reading.Read? ==>
                        && |reading.gops| == |Starts(UnitsOf(file, v))| && reading.presentation == presentation && reading.layout == layout
                        && reading.timescales.video == v.timescale && reading.videoEdit == v.mediaEdit
                        && reading.timescales.audio == (if audio.Some? then Some(audio.value.timescale) else None)
                        && reading.audioEdit == if audio.Some? then audio.value.mediaEdit else None))
  {
    hide UnitOf, SegmentOf, FramesIn, UnitsIn, StartsUpTo, IsUnits;
    if video.Some? {
      var v := video.value;
      forall i | 0 <= i < |v.samples|
        ensures UnitOf(file, v, v.samples[i]).Some? <==> IsUnits(file, v, v.samples[i])
      {
        UnitExact(file, v, v.samples[i]);
      }
      if UnitsReadable(file, v) {
        hide GopsOf, UnitsOf, MissesFrames, Starts;
        MissingExact(h, v, audio, UnitsOf(file, v), if audio.Some? then FramesOf(file, audio.value.samples) else []);
      }
    }
  }

  lemma MissingExact(h: Hash, video: Track, audio: Option<Track>, units: seq<AccessUnit>, frames: seq<Frame>)
    ensures GopsOf(h, video, audio, units, frames).None? <==> MissesFrames(video, audio, units, frames)
    ensures GopsOf(h, video, audio, units, frames).Some? ==> |GopsOf(h, video, audio, units, frames).value| == |Starts(units)|
  {
    hide SegmentOf, FramesIn, UnitsIn, AllStored, Starts;
  }
}

/** The edit list of a track (`editsOf`, tools/src/container.ts): a leading delay, and where the media starts. */
module EditLists {
  import opened ByteStrings
  import opened TableBytes
  import opened BoxWalk
  import Remux

  /** The one media edit: where in the media it starts, and how long it is shown, in movie ticks. */
  datatype OneEdit = OneEdit(mediaTime: int, duration: nat)

  datatype Edits = Edits(delayNum: nat, delayDen: nat, mediaStart: int, mediaEdit: Option<OneEdit>, unsupported: Option<string>)

  const NO_EDITS: Edits := Edits(0, 1, 0, None, None)

  /** Two's complement in `width` bytes. */
  function Signed(value: nat, width: nat): int {
    if 2 * value >= Pow256(width) then value - Pow256(width) else value
  }

  function EntrySize(version: Byte): nat {
    if version == 1 then 20 else 12
  }

  /** How wide a duration and a media time are. */
  function TimeWidth(version: Byte): nat {
    if version == 1 then 8 else 4
  }

  /** The rate's integer part, behind the two times. */
  function RateAt(file: Buffer, version: Byte, at: nat): Option<int> {
    var from := at + 2 * TimeWidth(version);
    if from + 2 > |file| then None else Some(Signed(ReadBigEndian(file[from..from + 2]), 2))
  }

  function TimesAt(file: Buffer, version: Byte, at: nat): Option<(nat, int)> {
    var w := TimeWidth(version);
    if at + 2 * w > |file| then None else Some((ReadBigEndian(file[at..at + w]), Signed(ReadBigEndian(file[at + w..at + 2 * w]), w)))
  }

  const CHANGES_RATE := "edit list changes rate"
  const MORE_EDITS := "edit list has more than one edit after the leading delay"

  /** What the entries from `i` on say, behind a delay; none where an entry that is read lies beyond the file. */
  function EditsFrom(file: Buffer, version: Byte, base: nat, i: nat, count: nat, delay: nat, scale: nat): Option<Edits>
    requires i <= count
    decreases count - i
  {
    if i == count then Some(Edits(delay, scale, 0, None, None))
    else
      var times := TimesAt(file, version, base + i * EntrySize(version));
      if times.None? then None
      else if times.value.1 < 0 then EditsFrom(file, version, base, i + 1, count, delay + times.value.0, scale)
      else
        var rate := RateAt(file, version, base + i * EntrySize(version));
        if rate.None? then None
        else
          Some(Edits(delay, scale, times.value.1, Some(OneEdit(times.value.1, times.value.0)),
                     if rate.value != 1 then Some(CHANGES_RATE) else if i + 1 < count then Some(MORE_EDITS) else None))
  }

  /** The payload of the track's edit list begins here; `Some(None)` when it has none. */
  function ListOf(file: Buffer, trak: FoundBox): Option<Option<FoundBox>>
    requires trak.end <= |file|
  {
    if Children(file, trak).None? then None
    else
      var edts := Child(file, trak, Remux.EDTS);
      if edts.None? then Some(None)
      else if Children(file, edts.value).None? then None
      else Some(Child(file, edts.value, Remux.ELST))
  }

  function EditsOf(file: Buffer, trak: FoundBox, scale: nat): Option<Edits>
    requires trak.end <= |file|
  {
    var list := ListOf(file, trak);
    if list.None? then None
    else if list.value.None? then Some(NO_EDITS)
    else
      var base := list.value.value.payload;
      if base + 8 > |file| then None
      else EditsFrom(file, file[base], base + 8, 0, ReadBigEndian(file[base + 4..base + 8]), 0, scale)
  }

  method ReadEdits(file: Buffer, trak: FoundBox, scale: nat) returns (edits: Option<Edits>)
    requires trak.end <= |file|
    ensures edits == EditsOf(file, trak, scale)
  {
    hide Children, Child, ReadBigEndian, Pow256;
    var list := ListOf(file, trak);
    if list.None? {
      return None;
    }
    if list.value.None? {
      return Some(NO_EDITS);
    }
    var base := list.value.value.payload;
    if base + 8 > |file| {
      return None;
    }
    var version, count := file[base], ReadBigEndian(file[base + 4..base + 8]);
    var size, width := EntrySize(version), TimeWidth(version);
    var delay: nat := 0;
    for i := 0 to count
      invariant EditsFrom(file, version, base + 8, i, count, delay, scale) == EditsFrom(file, version, base + 8, 0, count, 0, scale)
    {
      var at := base + 8 + i * size;
      if at + 2 * width > |file| {
        return None;
      }
      var duration, mediaTime := ReadBigEndian(file[at..at + width]), Signed(ReadBigEndian(file[at + width..at + 2 * width]), width);
      if mediaTime < 0 {
        delay := delay + duration;
        continue;
      }
      if at + 2 * width + 2 > |file| {
        return None;
      }
      var rate := Signed(ReadBigEndian(file[at + 2 * width..at + 2 * width + 2]), 2);
      if rate != 1 {
        return Some(Edits(delay, scale, mediaTime, Some(OneEdit(mediaTime, duration)), Some(CHANGES_RATE)));
      }
      if i + 1 < count {
        return Some(Edits(delay, scale, mediaTime, Some(OneEdit(mediaTime, duration)), Some(MORE_EDITS)));
      }
      return Some(Edits(delay, scale, mediaTime, Some(OneEdit(mediaTime, duration)), None));
    }
    return Some(Edits(delay, scale, 0, None, None));
  }

  // ---- what a list of entries reads as ----

  /** An entry of the list: its duration, its media time, negative for an empty edit, and its rate. */
  datatype EditEntry = EditEntry(duration: nat, mediaTime: int, rate: int)

  predicate Lists(file: Buffer, version: Byte, base: nat, entries: seq<EditEntry>) {
    forall i | 0 <= i < |entries| ::
      && TimesAt(file, version, base + i * EntrySize(version)) == Some((entries[i].duration, entries[i].mediaTime))
      && RateAt(file, version, base + i * EntrySize(version)) == Some(entries[i].rate)
  }

  function Delay(entries: seq<EditEntry>, k: nat): nat
    requires k <= |entries|
  {
    if k == 0 then 0 else Delay(entries, k - 1) + entries[k - 1].duration
  }

  lemma {:induction false} EmptyEditsDelay(file: Buffer, version: Byte, base: nat, entries: seq<EditEntry>, k: nat, scale: nat)
    requires Lists(file, version, base, entries) && k <= |entries| && forall i | 0 <= i < k :: entries[i].mediaTime < 0
    ensures EditsFrom(file, version, base, 0, |entries|, 0, scale) == EditsFrom(file, version, base, k, |entries|, Delay(entries, k), scale)
  {
    hide TimesAt, RateAt;
    if k > 0 {
      EmptyEditsDelay(file, version, base, entries, k - 1, scale);
    }
  }

  /**
   Leading empty edits add up to the delay. The one edit after them says where the media
   starts and for how long it is shown; another rate, or any further edit, is reported.
   */
  lemma EditsExact(file: Buffer, version: Byte, base: nat, entries: seq<EditEntry>, k: nat, scale: nat)
    requires Lists(file, version, base, entries) && k <= |entries| && forall i | 0 <= i < k :: entries[i].mediaTime < 0
    requires k < |entries| ==> entries[k].mediaTime >= 0
    ensures var edits := EditsFrom(file, version, base, 0, |entries|, 0, scale);
            && edits.Some? && edits.value.delayNum == Delay(entries, k) && edits.value.delayDen == scale
            && (k == |entries| ==> edits.value.mediaStart == 0 && edits.value.mediaEdit.None?)
            && (k < |entries| ==> edits.value.mediaStart == entries[k].mediaTime && edits.value.mediaEdit == Some(OneEdit(entries[k].mediaTime, entries[k].duration)))
            && (edits.value.unsupported.None? <==> (k < |entries| ==> entries[k].rate == 1 && k + 1 == |entries|))
  {
    EmptyEditsDelay(file, version, base, entries, k, scale);
    hide TimesAt, RateAt;
  }
}

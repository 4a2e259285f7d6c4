/**
 Sample tables as box payloads: `tablesFor` writes them (tools/src/remux.ts) and
 `samplesOf` reads them (tools/src/container.ts).
 */
module TableBytes {
  import opened ByteStrings
  import opened SampleTables

  /** Unsigned fields of one width, one after another. */
  function Fields(values: seq<nat>, width: nat): (b: Buffer)
    ensures |b| == width * |values|
  {
    if |values| == 0 then [] else Fields(values[..|values| - 1], width) + BigEndian(values[|values| - 1], width)
  }

  lemma FieldFits(count: nat, width: nat, i: nat)
    requires i < count
    ensures 0 <= width * i <= width * i + width <= width * count
  {
    assert width * count == width * i + width * (count - i);
    assert width * (count - i) == width + width * (count - i - 1);
  }

  /** The first `count` fields. */
  function ReadFields(b: Buffer, count: nat, width: nat): (values: seq<nat>)
    requires width * count <= |b|
    ensures |values| == count
  {
    if count == 0 then []
    else
      FieldFits(count, width, count - 1);
      ReadFields(b, count - 1, width) + [ReadBigEndian(b[width * (count - 1)..width * (count - 1) + width])]
  }

  predicate FitIn(values: seq<nat>, width: nat) {
    forall i | 0 <= i < |values| :: values[i] < Pow256(width)
  }

  lemma {:induction false} ReadFieldsPrefix(b: Buffer, more: Buffer, count: nat, width: nat)
    requires width * count <= |b|
    ensures width * count <= |b + more| && ReadFields(b + more, count, width) == ReadFields(b, count, width)
  {
    if count > 0 {
      FieldFits(count, width, count - 1);
      ReadFieldsPrefix(b, more, count - 1, width);
      var at := width * (count - 1);
      assert (b + more)[at..at + width] == b[at..at + width];
    }
  }

  lemma ReadOneMore(b: Buffer, last: Buffer, n: nat, width: nat)
    requires |b| == width * n && |last| == width
    ensures width * (n + 1) == |b + last|
    ensures ReadFields(b + last, n + 1, width) == ReadFields(b, n, width) + [ReadBigEndian(last)]
  {
    hide ReadBigEndian;
    assert width * (n + 1) == width * n + width;
    ReadFieldsPrefix(b, last, n, width);
    assert (b + last)[width * n..width * n + width] == last;
    assert ReadFields(b + last, n + 1, width) == ReadFields(b + last, n, width) + [ReadBigEndian((b + last)[width * n..width * n + width])];
  }

  /** Fields that fit their width read back. */
  lemma {:induction false} FieldsReadBack(values: seq<nat>, width: nat)
    requires FitIn(values, width)
    ensures ReadFields(Fields(values, width), |values|, width) == values
  {
    hide ReadFields, ReadBigEndian, BigEndian, Pow256;
    if |values| == 0 {
      NoFields(width);
      assert values == [];
    } else {
      var n := |values| - 1;
      FieldsReadBack(values[..n], width);
      ReadOneMore(Fields(values[..n], width), BigEndian(values[n], width), n, width);
      ReadWritten(values[n], width);
      assert values[..n] + [values[n]] == values;
    }
  }

  lemma NoFields(width: nat)
    ensures ReadFields(Fields([], width), 0, width) == []
  {
  }

  // ---- signed 32-bit fields and flattened runs ----

  predicate IsInt32(v: int) {
    -0x8000_0000 <= v <= 0x7fff_ffff
  }

  /** Two's complement in 32 bits. */
  function FromInt32(v: int): nat
    requires IsInt32(v)
  {
    if v < 0 then v + 0x1_0000_0000 else v
  }

  function ToInt32(word: nat): int {
    if word >= 0x8000_0000 then word - 0x1_0000_0000 else word
  }

  function FlatRuns(runs: seq<Run<nat>>): (words: seq<nat>)
    ensures |words| == 2 * |runs|
    ensures forall i | 0 <= i < |runs| :: words[2 * i] == runs[i].count && words[2 * i + 1] == runs[i].value
  {
    if |runs| == 0 then [] else FlatRuns(runs[..|runs| - 1]) + [runs[|runs| - 1].count, runs[|runs| - 1].value]
  }

  function PairedRuns(words: seq<nat>): (runs: seq<Run<nat>>)
    requires |words| % 2 == 0
    ensures |runs| == |words| / 2
  {
    seq(|words| / 2, i requires 0 <= i < |words| / 2 => Run(words[2 * i], words[2 * i + 1]))
  }

  lemma RunsPaired(runs: seq<Run<nat>>)
    ensures PairedRuns(FlatRuns(runs)) == runs
  {
  }

  // ---- the payloads ----

  /** The payloads of one sample table; `ctts` may be absent. */
  datatype Payloads = Payloads(stts: Buffer, ctts: Option<Buffer>, stsz: Buffer, stsc: Buffer, co64: Buffer)

  const VERSION_0: Buffer := [0, 0, 0, 0]

  /** A count and its fields, behind the version and flags. */
  function Counted(count: nat, words: seq<nat>, width: nat): Buffer {
    VERSION_0 + BigEndian(count, 4) + Fields(words, width)
  }

  /** `per` fields for each of the counted entries; none when the payload ends before them. */
  function ReadCounted(payload: Buffer, per: nat, width: nat): (words: Option<seq<nat>>)
    ensures words.Some? ==> |payload| >= 8 && |words.value| == per * ReadBigEndian(payload[4..8])
  {
    if |payload| < 8 then None
    else
      var count := per * ReadBigEndian(payload[4..8]);
      if |payload| < 8 + width * count then None else Some(ReadFields(payload[8..], count, width))
  }

  lemma CountedReadsBack(count: nat, words: seq<nat>, per: nat, width: nat)
    requires count < 0x1_0000_0000 && |words| == per * count && FitIn(words, width)
    ensures ReadCounted(Counted(count, words, width), per, width) == Some(words)
  {
    var payload := Counted(count, words, width);
    assert payload[4..8] == BigEndian(count, 4);
    assert payload[8..] == Fields(words, width);
    Widths();
    ReadWritten(count, 4);
    FieldsReadBack(words, width);
  }

  /** One composition offset a run of one, signed. */
  function CttsBytes(cts: seq<int>): Buffer
    requires forall i | 0 <= i < |cts| :: IsInt32(cts[i])
  {
    [1, 0, 0, 0] + BigEndian(|cts|, 4) + Fields(FlatRuns(CttsRuns(cts)), 4)
  }

  function CttsRuns(cts: seq<int>): (runs: seq<Run<nat>>)
    requires forall i | 0 <= i < |cts| :: IsInt32(cts[i])
  {
    seq(|cts|, i requires 0 <= i < |cts| => Run(1, FromInt32(cts[i])))
  }

  /** Version 1 stores offsets signed, any other unsigned. */
  function ReadCtts(payload: Buffer): Option<seq<Run<int>>> {
    var words := ReadCounted(payload, 2, 4);
    if words.None? then None
    else
      var runs := PairedRuns(words.value);
      var signed := payload[0] == 1;
      Some(seq(|runs|, i requires 0 <= i < |runs| => Run(runs[i].count, if signed then ToInt32(runs[i].value) else runs[i].value)))
  }

  function SingleRuns(cts: seq<int>): seq<Run<int>> {
    seq(|cts|, i requires 0 <= i < |cts| => Run(1, cts[i]))
  }

  lemma CttsReadsBack(cts: seq<int>)
    requires |cts| < 0x1_0000_0000 && forall i | 0 <= i < |cts| :: IsInt32(cts[i])
    ensures ReadCtts(CttsBytes(cts)) == Some(SingleRuns(cts))
  {
    hide Fields, ReadFields, FlatRuns;
    var words := FlatRuns(CttsRuns(cts));
    var payload := CttsBytes(cts);
    Widths();
    FitRuns(CttsRuns(cts));
    assert payload[4..8] == BigEndian(|cts|, 4) && payload[8..] == Fields(words, 4);
    ReadWritten(|cts|, 4);
    FieldsReadBack(words, 4);
    assert ReadCounted(payload, 2, 4) == Some(words);
    RunsPaired(CttsRuns(cts));
    assert ReadCtts(payload).value == SingleRuns(cts);
  }

  lemma FitRuns(runs: seq<Run<nat>>)
    requires forall i | 0 <= i < |runs| :: runs[i].count < 0x1_0000_0000 && runs[i].value < 0x1_0000_0000
    ensures FitIn(FlatRuns(runs), 4)
  {
    Widths();
    hide FlatRuns, Pow256;
    var words := FlatRuns(runs);
    forall k | 0 <= k < |words|
      ensures words[k] < Pow256(4)
    {
      var i := k / 2;
      assert words[2 * i] == runs[i].count && words[2 * i + 1] == runs[i].value;
    }
  }

  /** The payloads the tables are written as: one sample a chunk, 64-bit offsets. */
  function Written(deltaRuns: seq<Run<nat>>, cts: Option<seq<int>>, sizes: seq<nat>, offsets: seq<nat>): Payloads
    requires cts.Some? ==> forall i | 0 <= i < |cts.value| :: IsInt32(cts.value[i])
  {
    Payloads(
      Counted(|deltaRuns|, FlatRuns(deltaRuns), 4),
      if cts.None? then None else Some(CttsBytes(cts.value)),
      VERSION_0 + BigEndian(0, 4) + BigEndian(|sizes|, 4) + Fields(sizes, 4),
      Counted(1, [1, 1, 1], 4),
      Counted(|offsets|, offsets, 8))
  }

  /** The tables as `samplesOf` reads them; none where a payload ends early. */
  function ReadTables(p: Payloads): Option<Tables> {
    var sizes := ReadSizes(p.stsz);
    var offsets := ReadCounted(p.co64, 1, 8);
    var chunks := ReadCounted(p.stsc, 3, 4);
    var deltas := ReadCounted(p.stts, 2, 4);
    var composition := if p.ctts.None? then Some(None) else var runs := ReadCtts(p.ctts.value); if runs.None? then None else Some(Some(runs.value));
    if sizes.None? || offsets.None? || chunks.None? || deltas.None? || composition.None? then None
    else
      Some(Tables(sizes.value.1, sizes.value.0, sizes.value.2, offsets.value, ReadChunkRuns(chunks.value), PairedRuns(deltas.value), composition.value))
  }

  /** The uniform size, the sample count, and the sizes when they are listed. */
  function ReadSizes(stsz: Buffer): Option<(nat, nat, seq<nat>)> {
    if |stsz| < 12 then None
    else
      var uniform, count := ReadBigEndian(stsz[4..8]), ReadBigEndian(stsz[8..12]);
      if uniform != 0 then Some((uniform, count, []))
      else if |stsz| < 12 + 4 * count then None
      else Some((0, count, ReadFields(stsz[12..], count, 4)))
  }

  function ReadChunkRuns(words: seq<nat>): seq<ChunkRun>
    requires |words| % 3 == 0
  {
    seq(|words| / 3, i requires 0 <= i < |words| / 3 => ChunkRun(words[3 * i], words[3 * i + 1]))
  }

  lemma SizesReadBack(sizes: seq<nat>)
    requires |sizes| < 0x1_0000_0000 && FitIn(sizes, 4)
    ensures ReadSizes(VERSION_0 + BigEndian(0, 4) + BigEndian(|sizes|, 4) + Fields(sizes, 4)) == Some((0, |sizes|, sizes))
  {
    Widths();
    ReadWritten(0, 4);
    ReadWritten(|sizes|, 4);
    FieldsReadBack(sizes, 4);
    hide ReadFields, Fields, BigEndian, ReadBigEndian, Pow256;
    ReadSizesOf(VERSION_0, BigEndian(0, 4), BigEndian(|sizes|, 4), Fields(sizes, 4));
  }

  lemma ReadSizesOf(version: Buffer, uniform: Buffer, count: Buffer, fields: Buffer)
    requires |version| == |uniform| == |count| == 4
    requires ReadBigEndian(uniform) == 0 && |fields| == 4 * ReadBigEndian(count)
    ensures ReadSizes(version + uniform + count + fields) == Some((0, ReadBigEndian(count), ReadFields(fields, ReadBigEndian(count), 4)))
  {
    hide ReadFields, ReadBigEndian;
    var payload := version + uniform + count + fields;
    assert payload[4..8] == uniform;
    assert payload[8..12] == count;
    assert payload[12..] == fields;
  }

  /** What is written reads back, table by table. */
  lemma WrittenReadsBack(deltaRuns: seq<Run<nat>>, cts: Option<seq<int>>, sizes: seq<nat>, offsets: seq<nat>)
    requires |deltaRuns| < 0x1_0000_0000 && |sizes| < 0x1_0000_0000 && |offsets| < 0x1_0000_0000
    requires forall i | 0 <= i < |deltaRuns| :: deltaRuns[i].count < 0x1_0000_0000 && deltaRuns[i].value < 0x1_0000_0000
    requires cts.Some? ==> |cts.value| < 0x1_0000_0000 && forall i | 0 <= i < |cts.value| :: IsInt32(cts.value[i])
    requires FitIn(sizes, 4) && FitIn(offsets, 8)
    ensures ReadTables(Written(deltaRuns, cts, sizes, offsets))
         == Some(Tables(|sizes|, 0, sizes, offsets, [ChunkRun(1, 1)], deltaRuns, if cts.None? then None else Some(SingleRuns(cts.value))))
  {
    hide Fields, ReadFields, FlatRuns, ReadCounted, ReadSizes, ReadCtts, Counted, PairedRuns, CttsBytes, FitIn, Pow256;
    SizesReadBack(sizes);
    CountedReadsBack(|offsets|, offsets, 1, 8);
    OneChunkRun();
    FitRuns(deltaRuns);
    CountedReadsBack(|deltaRuns|, FlatRuns(deltaRuns), 2, 4);
    RunsPaired(deltaRuns);
    if cts.Some? {
      CttsReadsBack(cts.value);
    }
    assert ReadChunkRuns([1, 1, 1]) == [ChunkRun(1, 1)];
  }

  lemma OneChunkRun()
    ensures ReadCounted(Counted(1, [1, 1, 1], 4), 3, 4) == Some([1, 1, 1])
  {
    Widths();
    CountedReadsBack(1, [1, 1, 1], 3, 4);
  }
}

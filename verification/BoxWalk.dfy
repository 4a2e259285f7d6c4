/**
 The walk over the boxes of a file (`boxes`, `children` and `find`, tools/src/container.ts):
 what it finds in bytes that were written box by box.
 */
module BoxWalk {
  import opened ByteStrings

  /** A box found: where it starts, where its payload does, and where it ends. */
  datatype FoundBox = FoundBox(name: Buffer, start: nat, payload: nat, end: nat)

  /** The header at `at` of a container that ends at `end`: how long the box is, and its header. None where the 64-bit size lies outside the file. */
  function HeaderAt(file: Buffer, at: nat, end: nat): Option<(nat, nat)>
    requires at + 8 <= end <= |file|
  {
    var size := ReadBigEndian(file[at..at + 4]);
    if size == 1 then if at + 16 > |file| then None else Some((ReadBigEndian(file[at + 8..at + 16]), 16))
    else if size == 0 then Some((end - at, 8))
    else Some((size, 8))
  }

  /** The boxes directly inside `at` up to `end`, until one does not fit; none where the reader throws. */
  function BoxesFrom(file: Buffer, at: nat, end: nat): Option<seq<FoundBox>>
    requires end <= |file|
    decreases if at <= end then end - at else 0
  {
    if at + 8 > end then Some([])
    else
      var header := HeaderAt(file, at, end);
      if header.None? then None
      else if header.value.0 < 8 || at + header.value.0 > end then Some([])
      else
        Then(FoundBox(file[at + 4..at + 8], at, at + header.value.1, at + header.value.0), BoxesFrom(file, at + header.value.0, end))
  }

  function Then(first: FoundBox, rest: Option<seq<FoundBox>>): Option<seq<FoundBox>> {
    if rest.None? then None else Some([first] + rest.value)
  }

  lemma ThenAppend(done: seq<FoundBox>, first: FoundBox, rest: Option<seq<FoundBox>>)
    requires rest.Some?
    ensures Then(first, rest).Some? && done + Then(first, rest).value == done + [first] + rest.value
  {
  }

  lemma ThenSome(first: FoundBox, rest: Option<seq<FoundBox>>)
    ensures Then(first, rest).Some? <==> rest.Some?
  {
  }

  method Boxes(file: Buffer, start: nat, end: nat) returns (found: Option<seq<FoundBox>>)
    requires end <= |file|
    ensures found == BoxesFrom(file, start, end)
  {
    hide ReadBigEndian, Then;
    var boxes: seq<FoundBox> := [];
    var at := start;
    ghost var whole := BoxesFrom(file, start, end);
    while at + 8 <= end
      invariant BoxesFrom(file, at, end).None? <==> whole.None?
      invariant whole.Some? ==> boxes + BoxesFrom(file, at, end).value == whole.value
      decreases if at <= end then end - at else 0
    {
      var size := ReadBigEndian(file[at..at + 4]);
      var payload := at + 8;
      if size == 1 {
        if at + 16 > |file| {
          return None;
        }
        size := ReadBigEndian(file[at + 8..at + 16]);
        payload := at + 16;
      } else if size == 0 {
        size := end - at;
      }
      if size < 8 || at + size > end {
        assert BoxesFrom(file, at, end) == Some([]);
        break;
      }
      var box := FoundBox(file[at + 4..at + 8], at, payload, at + size);
      ThenSome(box, BoxesFrom(file, at + size, end));
      if whole.Some? {
        ThenAppend(boxes, box, BoxesFrom(file, at + size, end));
      }
      boxes := boxes + [box];
      at := at + size;
    }
    assert BoxesFrom(file, at, end) == Some([]) && boxes + [] == boxes;
    return Some(boxes);
  }

  /** The first box of this name. */
  function Find(list: seq<FoundBox>, name: Buffer): Option<FoundBox> {
    if |list| == 0 then None else if list[0].name == name then Some(list[0]) else Find(list[1..], name)
  }

  /** What a box holds; nothing where its header is longer than it. */
  function Held(file: Buffer, box: FoundBox): Buffer {
    if box.payload <= box.end <= |file| then file[box.payload..box.end] else []
  }

  // ---- bytes that are boxes ----

  /** One complete box: its own length is the length of these bytes, in four bytes or, where they say 1, in eight more. */
  predicate OneBox(b: Buffer) {
    && |b| >= 8
    && (ReadBigEndian(b[..4]) == |b| || (ReadBigEndian(b[..4]) == 1 && |b| >= 16 && ReadBigEndian(b[8..16]) == |b|))
  }

  function NameOf(b: Buffer): Buffer {
    if |b| >= 8 then b[4..8] else []
  }

  function HeaderLength(b: Buffer): nat {
    if |b| >= 8 && ReadBigEndian(b[..4]) == 1 then 16 else 8
  }

  /** Where the boxes of a list lie, one after another from `at`. */
  function Laid(parts: seq<Buffer>, at: nat): seq<FoundBox>
    requires forall i | 0 <= i < |parts| :: OneBox(parts[i])
  {
    if |parts| == 0 then []
    else [FoundBox(NameOf(parts[0]), at, at + HeaderLength(parts[0]), at + |parts[0]|)] + Laid(parts[1..], at + |parts[0]|)
  }

  lemma OneBoxFound(file: Buffer, at: nat, end: nat, b: Buffer)
    requires OneBox(b) && at + |b| <= end <= |file| && file[at..at + |b|] == b
    ensures BoxesFrom(file, at, end) == Then(FoundBox(NameOf(b), at, at + HeaderLength(b), at + |b|), BoxesFrom(file, at + |b|, end))
  {
    hide ReadBigEndian;
    Inside(file, at, b, 0, 4);
    Inside(file, at, b, 4, 8);
    if |b| >= 16 {
      Inside(file, at, b, 8, 16);
    }
    SizeOne(b);
  }

  lemma Inside(file: Buffer, at: nat, b: Buffer, i: nat, j: nat)
    requires at + |b| <= |file| && file[at..at + |b|] == b && i <= j <= |b|
    ensures file[at + i..at + j] == b[i..j]
  {
    forall k | 0 <= k < j - i
      ensures file[at + i..at + j][k] == b[i..j][k]
    {
      assert b[i + k] == file[at..at + |b|][i + k];
    }
  }

  lemma SizeOne(b: Buffer)
    requires OneBox(b)
    ensures ReadBigEndian(b[..4]) != 0
  {
  }

  /** A container holding complete boxes is walked as exactly those, in order. */
  lemma {:induction false} LaidFound(file: Buffer, at: nat, parts: seq<Buffer>)
    requires forall i | 0 <= i < |parts| :: OneBox(parts[i])
    requires at + |Concat(parts)| <= |file| && file[at..at + |Concat(parts)|] == Concat(parts)
    ensures BoxesFrom(file, at, at + |Concat(parts)|) == Some(Laid(parts, at))
    decreases |parts|
  {
    hide OneBox, BoxesFrom, HeaderLength, NameOf;
    var end := at + |Concat(parts)|;
    if |parts| == 0 {
      NoBoxes(file, at, end);
    } else {
      assert Concat(parts) == parts[0] + Concat(parts[1..]);
      var first := |parts[0]|;
      Inside(file, at, Concat(parts), 0, first);
      Inside(file, at, Concat(parts), first, |Concat(parts)|);
      assert Concat(parts)[first..] == Concat(parts[1..]) && Concat(parts)[..first] == parts[0];
      OneBoxFound(file, at, end, parts[0]);
      LaidFound(file, at + |parts[0]|, parts[1..]);
    }
  }

  lemma NoBoxes(file: Buffer, at: nat, end: nat)
    requires at == end <= |file|
    ensures BoxesFrom(file, at, end) == Some([])
  {
  }

  /** The first part of a name, found where it lies. */
  lemma {:induction false} FindLaid(parts: seq<Buffer>, at: nat, k: nat)
    requires forall i | 0 <= i < |parts| :: OneBox(parts[i])
    requires k < |parts| && forall i | 0 <= i < k :: NameOf(parts[i]) != NameOf(parts[k])
    ensures var from := at + |Concat(parts[..k])|;
            Find(Laid(parts, at), NameOf(parts[k])) == Some(FoundBox(NameOf(parts[k]), from, from + HeaderLength(parts[k]), from + |parts[k]|))
  {
    hide OneBox, HeaderLength, NameOf;
    if k == 0 {
      assert parts[..0] == [];
    } else {
      FindLaid(parts[1..], at + |parts[0]|, k - 1);
      assert parts[1..][..k - 1] == parts[1..k];
      assert parts[..k][1..] == parts[1..k];
      assert Concat(parts[..k]) == parts[0] + Concat(parts[1..k]);
    }
  }

  lemma {:induction false} FindNone(parts: seq<Buffer>, at: nat, name: Buffer)
    requires forall i | 0 <= i < |parts| :: OneBox(parts[i]) && NameOf(parts[i]) != name
    ensures Find(Laid(parts, at), name) == None
  {
    hide OneBox, HeaderLength, NameOf;
    if |parts| > 0 {
      FindNone(parts[1..], at + |parts[0]|, name);
    }
  }

  lemma {:induction false} LaidAt(parts: seq<Buffer>, at: nat, k: nat)
    requires (forall i | 0 <= i < |parts| :: OneBox(parts[i])) && k < |parts|
    ensures |Laid(parts, at)| == |parts|
    ensures var from := at + |Concat(parts[..k])|;
            Laid(parts, at)[k] == FoundBox(NameOf(parts[k]), from, from + HeaderLength(parts[k]), from + |parts[k]|)
  {
    hide OneBox, HeaderLength, NameOf;
    LaidCount(parts, at);
    if k == 0 {
      assert parts[..0] == [];
    } else {
      LaidAt(parts[1..], at + |parts[0]|, k - 1);
      assert parts[1..][..k - 1] == parts[1..k];
      assert parts[..k][1..] == parts[1..k];
      assert Concat(parts[..k]) == parts[0] + Concat(parts[1..k]);
    }
  }

  lemma {:induction false} LaidCount(parts: seq<Buffer>, at: nat)
    requires forall i | 0 <= i < |parts| :: OneBox(parts[i])
    ensures |Laid(parts, at)| == |parts|
  {
    hide OneBox, HeaderLength, NameOf;
    if |parts| > 0 {
      LaidCount(parts[1..], at + |parts[0]|);
    }
  }

  /** Part `k` of the concatenation. */
  lemma PartAt(file: Buffer, at: nat, parts: seq<Buffer>, k: nat)
    requires k < |parts| && at + |Concat(parts)| <= |file| && file[at..at + |Concat(parts)|] == Concat(parts)
    ensures var from := at + |Concat(parts[..k])|;
            from + |parts[k]| <= at + |Concat(parts)| && file[from..from + |parts[k]|] == parts[k]
  {
    var before, after := parts[..k], parts[k + 1..];
    assert parts == before + ([parts[k]] + after);
    ConcatAppend(before, [parts[k]] + after);
    assert ([parts[k]] + after)[1..] == after;
    var whole := Concat(parts);
    assert whole == Concat(before) + (parts[k] + Concat(after));
    Inside(file, at, whole, |Concat(before)|, |Concat(before)| + |parts[k]|);
    assert whole[|Concat(before)|..|Concat(before)| + |parts[k]|] == parts[k];
  }

  // ---- descending ----

  /** The boxes inside a box; none where the reader throws. */
  function Children(file: Buffer, box: FoundBox): Option<seq<FoundBox>>
    requires box.end <= |file|
  {
    BoxesFrom(file, box.payload, box.end)
  }

  /** The first box of this name inside a box. */
  function Child(file: Buffer, box: FoundBox, name: Buffer): (child: Option<FoundBox>)
    requires box.end <= |file|
    ensures child.Some? ==> child.value.end <= |file|
  {
    var kids := Children(file, box);
    if kids.None? then None
    else
      FoundEnds(file, box.payload, box.end, name);
      Find(kids.value, name)
  }

  lemma {:induction false} FoundEnds(file: Buffer, at: nat, end: nat, name: Buffer)
    requires end <= |file|
    ensures var found := BoxesFrom(file, at, end);
            found.Some? && Find(found.value, name).Some? ==> Find(found.value, name).value.end <= end
    decreases if at <= end then end - at else 0
  {
    hide HeaderAt;
    if at + 8 <= end {
      var header := HeaderAt(file, at, end);
      if header.Some? && header.value.0 >= 8 && at + header.value.0 <= end {
        FoundEnds(file, at + header.value.0, end, name);
      }
    }
  }

  /** The bytes of a found box are these. */
  predicate Holds(file: Buffer, box: FoundBox, bytes: Buffer) {
    && OneBox(bytes) && box.start + |bytes| == box.end <= |file| && file[box.start..box.end] == bytes
    && box.name == NameOf(bytes) && box.payload == box.start + HeaderLength(bytes)
  }

  predicate AreBoxes(parts: seq<Buffer>) {
    forall i | 0 <= i < |parts| :: OneBox(parts[i])
  }

  /** A found box whose payload, behind its header, is these boxes. */
  predicate HoldsBoxes(file: Buffer, box: FoundBox, parts: seq<Buffer>) {
    AreBoxes(parts) && box.payload + |Concat(parts)| == box.end <= |file| && file[box.payload..box.end] == Concat(parts)
  }

  lemma HeldBoxes(file: Buffer, box: FoundBox, header: Buffer, parts: seq<Buffer>)
    requires AreBoxes(parts) && Holds(file, box, header + Concat(parts)) && |header| == HeaderLength(header + Concat(parts))
    ensures HoldsBoxes(file, box, parts)
  {
    hide OneBox, HeaderLength, NameOf, AreBoxes;
    var bytes := header + Concat(parts);
    Inside(file, box.start, bytes, |header|, |bytes|);
    assert bytes[|header|..] == Concat(parts);
  }

  /** Its children are those boxes, each where it lies. */
  lemma ChildrenAre(file: Buffer, box: FoundBox, parts: seq<Buffer>)
    requires HoldsBoxes(file, box, parts)
    ensures Children(file, box) == Some(Laid(parts, box.payload))
  {
    hide OneBox, BoxesFrom, Laid, Concat;
    LaidFound(file, box.payload, parts);
  }

  lemma PartHolds(file: Buffer, box: FoundBox, parts: seq<Buffer>, k: nat)
    requires HoldsBoxes(file, box, parts) && k < |parts|
    ensures var from := box.payload + |Concat(parts[..k])|;
            Holds(file, FoundBox(NameOf(parts[k]), from, from + HeaderLength(parts[k]), from + |parts[k]|), parts[k])
  {
    hide OneBox, HeaderLength, NameOf, Concat;
    PartAt(file, box.payload, parts, k);
  }

  /** The first child of a name. */
  lemma ChildIs(file: Buffer, box: FoundBox, parts: seq<Buffer>, k: nat)
    requires HoldsBoxes(file, box, parts) && k < |parts| && forall i | 0 <= i < k :: NameOf(parts[i]) != NameOf(parts[k])
    ensures var child := Child(file, box, NameOf(parts[k])); child.Some? && Holds(file, child.value, parts[k])
  {
    ChildrenAre(file, box, parts);
    PartHolds(file, box, parts, k);
    hide OneBox, HeaderLength, NameOf, Laid, Concat, Holds, Children;
    FindLaid(parts, box.payload, k);
  }

  lemma NoChild(file: Buffer, box: FoundBox, parts: seq<Buffer>, name: Buffer)
    requires HoldsBoxes(file, box, parts) && forall i | 0 <= i < |parts| :: NameOf(parts[i]) != name
    ensures Child(file, box, name) == None
  {
    ChildrenAre(file, box, parts);
    hide OneBox, NameOf, Laid, Concat, Children;
    FindNone(parts, box.payload, name);
  }

  /** Child number `k`, whatever the names. */
  lemma ChildAt(file: Buffer, box: FoundBox, parts: seq<Buffer>, k: nat)
    requires HoldsBoxes(file, box, parts) && k < |parts|
    ensures var kids := Children(file, box); kids.Some? && |kids.value| == |parts| && Holds(file, kids.value[k], parts[k])
  {
    ChildrenAre(file, box, parts);
    PartHolds(file, box, parts, k);
    hide OneBox, HeaderLength, NameOf, Laid, Concat, Holds, Children;
    LaidAt(parts, box.payload, k);
  }
}

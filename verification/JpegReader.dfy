/**
 The loops over a JPEG's bytes (tools/src/jumbf.ts, tools/src/canonical.ts): the marker
 walk by positions, the JUMBF groups, and the copy that leaves the dropped segments out.
 */
module JpegReader {
  import opened ByteStrings
  import opened Jpeg
  import opened Canonical

  /** A marker segment by where it begins and ends. */
  datatype Found = Found(marker: Byte, start: nat, end: nat)

  /** The segments among the pieces that begin at `at`. */
  function Positions(pieces: seq<Piece>, at: nat): seq<Found> {
    if |pieces| == 0 then []
    else
      var end := at + |pieces[0].bytes|;
      (if pieces[0].Segment? && |pieces[0].bytes| >= 2 then [Found(pieces[0].bytes[1], at, end)] else []) + Positions(pieces[1..], end)
  }

  lemma {:induction false} PositionsAppend(a: seq<Piece>, b: seq<Piece>, at: nat)
    ensures Positions(a + b, at) == Positions(a, at) + Positions(b, at + |Join(a)|)
  {
    if |a| == 0 {
      assert a + b == b;
    } else {
      PositionsAppend(a[1..], b, at + |a[0].bytes|);
      assert (a + b)[1..] == a[1..] + b && (a + b)[0] == a[0];
    }
  }

  /** The walk of all the bytes, some pieces of which are done. */
  function Resumed(done: seq<Piece>, rest: Walked): Walked {
    if rest.Malformed? then Malformed else Walked(done + rest.pieces, rest.tail)
  }

  /** The marker segments up to SOS, or none when the JPEG is malformed. */
  function SegmentsIn(jpeg: Buffer): Option<seq<Found>> {
    if |jpeg| < 2 then Some([])
    else
      var w := Walk(jpeg[2..]);
      if w.Malformed? then None else Some(Positions(w.pieces, 2))
  }

  lemma Advance(b: Buffer, done: seq<Piece>, n: nat)
    requires StepAt(b).Take? && n == |StepAt(b).piece.bytes|
    ensures Resumed(done, Walk(b)) == Resumed(done + [StepAt(b).piece], Walk(b[n..]))
  {
    hide StepAt;
    var rest := Walk(b[n..]);
    if rest.Walked? {
      assert done + ([StepAt(b).piece] + rest.pieces) == done + [StepAt(b).piece] + rest.pieces;
    }
  }

  lemma PositionsPush(done: seq<Piece>, last: Piece, at: nat)
    ensures Positions(done + [last], at) ==
            Positions(done, at) + if last.Segment? && |last.bytes| >= 2 then [Found(last.bytes[1], at + |Join(done)|, at + |Join(done)| + |last.bytes|)] else []
    ensures Join(done + [last]) == Join(done) + last.bytes
  {
    PositionsAppend(done, [last], at);
    JoinAppend(done, last);
    assert [last][1..] == [];
    assert Positions([], at + |Join(done)| + |last.bytes|) == [];
  }

  lemma {:induction false} JoinAppend(done: seq<Piece>, last: Piece)
    ensures Join(done + [last]) == Join(done) + last.bytes
  {
    if |done| == 0 {
      assert done + [last] == [last] && [last][1..] == [];
      assert Join([]) == [];
    } else {
      assert (done + [last])[1..] == done[1..] + [last];
      JoinAppend(done[1..], last);
    }
  }

  /** One round of the walk: it ends, it fails, or it goes on at `next`, perhaps past a segment. */
  datatype Round = Halt | Broken | Past(next: nat, found: seq<Found>)

  function RoundOf(step: Step, pos: nat): Round {
    match step
    case Stop => Halt
    case Bad => Broken
    case Take(p) => Past(pos + |p.bytes|, if p.Segment? && |p.bytes| >= 2 then [Found(p.bytes[1], pos, pos + |p.bytes|)] else [])
  }

  method WalkRound(jpeg: Buffer, pos: nat) returns (round: Round)
    requires pos + 4 <= |jpeg|
    ensures round == RoundOf(StepAt(jpeg[pos..]), pos)
  {
    hide StepAt, ReadBigEndian;
    StepThere(jpeg, pos);
    if jpeg[pos] != 0xff {
      return Broken;
    }
    var marker := jpeg[pos + 1];
    if marker == 0xff || marker == 0x01 || 0xd0 <= marker <= 0xd7 {
      return Past(pos + if marker == 0xff then 1 else 2, []);
    }
    if marker == SOS {
      return Halt;
    }
    var length := ReadBigEndian(jpeg[pos + 2..pos + 4]);
    if length < 2 || pos + 2 + length > |jpeg| {
      return Broken;
    }
    round := Past(pos + 2 + length, [Found(marker, pos, pos + 2 + length)]);
  }

  /** The walk with a cursor. */
  method JpegSegments(jpeg: Buffer) returns (segments: Option<seq<Found>>)
    ensures segments == SegmentsIn(jpeg)
  {
    var out: seq<Found> := [];
    if |jpeg| < 2 {
      return Some(out);
    }
    var pos: nat := 2;
    ghost var done: seq<Piece> := [];
    NothingDone(Walk(jpeg[2..]));
    NoPositions();
    hide Walk, Resumed, Positions, Join, StepAt, SegmentsIn;
    while pos + 4 <= |jpeg|
      invariant 2 <= pos <= |jpeg|
      invariant Walk(jpeg[2..]) == Resumed(done, Walk(jpeg[pos..]))
      invariant out == Positions(done, 2) && pos == 2 + |Join(done)|
      decreases |jpeg| - pos
    {
      var round := WalkRound(jpeg, pos);
      StepOfRound(StepAt(jpeg[pos..]), pos);
      hide RoundOf;
      match round {
        case Halt => break;
        case Broken =>
          FailsThere(jpeg, pos, done);
          return None;
        case Past(next, found) =>
          done := Passed(jpeg, pos, done, next, found);
          out := out + found;
          pos := next;
      }
    }
    StopsThere(jpeg, pos, done);
    return Some(out);
  }

  lemma StepOfRound(step: Step, pos: nat)
    ensures RoundOf(step, pos).Halt? <==> step.Stop?
    ensures RoundOf(step, pos).Broken? <==> step.Bad?
  {
  }

  lemma NoPositions()
    ensures Positions([], 2) == [] && |Join([])| == 0
  {
  }

  lemma NothingDone(w: Walked)
    ensures w == Resumed([], w)
  {
    if w.Walked? {
      assert [] + w.pieces == w.pieces;
    }
  }

  lemma FailsThere(jpeg: Buffer, pos: nat, done: seq<Piece>)
    requires 2 <= pos <= |jpeg| && StepAt(jpeg[pos..]).Bad? && Walk(jpeg[2..]) == Resumed(done, Walk(jpeg[pos..]))
    ensures SegmentsIn(jpeg) == None
  {
    hide StepAt;
  }

  lemma StopsThere(jpeg: Buffer, pos: nat, done: seq<Piece>)
    requires 2 <= pos <= |jpeg| && (|jpeg| < pos + 4 || StepAt(jpeg[pos..]).Stop?) && Walk(jpeg[2..]) == Resumed(done, Walk(jpeg[pos..]))
    ensures SegmentsIn(jpeg) == Some(Positions(done, 2))
  {
    assert |jpeg| < pos + 4 ==> StepAt(jpeg[pos..]).Stop?;
    hide StepAt, Positions;
    assert done + [] == done;
  }

  /** One step of the walk, by positions. */
  lemma StepThere(jpeg: Buffer, pos: nat)
    requires pos + 4 <= |jpeg|
    ensures var step, marker, length := StepAt(jpeg[pos..]), jpeg[pos + 1], ReadBigEndian(jpeg[pos + 2..pos + 4]);
            if jpeg[pos] != 0xff then step.Bad?
            else if marker == 0xff then step == Take(Skip(jpeg[pos..pos + 1]))
            else if IsLengthless(marker) then step == Take(Skip(jpeg[pos..pos + 2]))
            else if marker == SOS then step.Stop?
            else if length < 2 || pos + 2 + length > |jpeg| then step.Bad?
            else step == Take(Segment(jpeg[pos..pos + 2 + length])) && jpeg[pos..pos + 2 + length][1] == marker
  {
    hide ReadBigEndian;
    var b := jpeg[pos..];
    assert b[2..4] == jpeg[pos + 2..pos + 4];
    assert b[..1] == jpeg[pos..pos + 1] && b[..2] == jpeg[pos..pos + 2];
    assert forall n | 0 <= n <= |b| :: b[..n] == jpeg[pos..pos + n];
  }

  /** One more piece done. */
  lemma Passed(jpeg: Buffer, pos: nat, done: seq<Piece>, next: nat, found: seq<Found>) returns (more: seq<Piece>)
    requires pos <= |jpeg| && pos == 2 + |Join(done)| && RoundOf(StepAt(jpeg[pos..]), pos) == Past(next, found)
    ensures pos < next <= |jpeg| && Resumed(done, Walk(jpeg[pos..])) == Resumed(more, Walk(jpeg[next..]))
    ensures next == 2 + |Join(more)| && Positions(more, 2) == Positions(done, 2) + found
  {
    hide StepAt, Walk, Positions, Join, Resumed;
    var p := StepAt(jpeg[pos..]).piece;
    Advance(jpeg[pos..], done, |p.bytes|);
    assert jpeg[pos..][|p.bytes|..] == jpeg[pos + |p.bytes|..];
    PositionsPush(done, p, 2);
    more := done + [p];
  }
}

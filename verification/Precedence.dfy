/**
 Which copy of a proof decides (tools/src/verify.ts and tools/src/carrier.ts): the
 trailer, the active manifest's copy, a sidecar, or an ancestor's.
 */
module Precedence {
  import opened ByteStrings
  import opened Json
  import opened Trailer
  import opened Verdict

  /** The manifest store found with some bytes: the active manifest's proof, and the first one up the chain. */
  datatype Copies = Copies(active: Option<Buffer>, ancestor: Option<Buffer>, depth: nat)

  /**
   The calls a verdict rests on. `outcome` is what `judge` makes of a payload over
   some bytes: it depends on the value the payload denotes, not on how it is
   written, and neither the labels nor the footer flags enter it.
   */
  datatype Judging = Judging(crc: Checksum, copiesIn: Buffer -> Copies, outcome: (Option<Json>, Buffer) -> Outcome)
  {
    function Judge(payload: Buffer, media: Buffer): Outcome {
      outcome(ParseProof(payload), media)
    }

    /** An ancestor lies at depth 1 or more, and a payload that is no proof proves nothing. */
    ghost predicate Valid() {
      && (forall media :: copiesIn(media).ancestor.Some? ==> copiesIn(media).depth >= 1)
      && (forall media :: Rank(outcome(None, media)) == 0)
    }
  }

  datatype Source = FromTrailer | FromManifest(depth: nat) | FromSidecar

  datatype Extraction =
    | NothingFound
    | Corrupted
    | Unsupported(major: nat)
    | Nested
    | Found(payload: Buffer, media: Buffer, source: Source, alternate: Option<Buffer>)

  function ExtractProof(j: Judging, file: Buffer, sidecar: Option<Buffer>): Extraction {
    var trailer := ParseTrailer(j.crc, file);
    match trailer
    case CorruptedTrailer => Corrupted
    case UnsupportedTrailer(major) => Unsupported(major)
    case OkTrailer(payload, _, _, mediaEnd) =>
      var media := file[..mediaEnd];
      if !ParseTrailer(j.crc, media).NoTrailer? then Nested
      else Found(payload, media, FromTrailer, if sidecar.Some? && sidecar.value != payload then sidecar else None)
    case NoTrailer =>
      var copies := j.copiesIn(file);
      if copies.active.Some? then
        Found(copies.active.value, file, FromManifest(0),
              if sidecar.Some? && !SameProof(sidecar.value, copies.active.value) then sidecar else None)
      else if sidecar.Some? then Found(sidecar.value, file, FromSidecar, None)
      else if copies.ancestor.Some? then Found(copies.ancestor.value, file, FromManifest(copies.depth), None)
      else NothingFound
  }

  /** The order in which outcomes win over one another. */
  function Rank(outcome: Outcome): nat {
    match outcome
    case Authentic => 3
    case VerifiedClip => 2
    case FramesNotCompared => 1
    case _ => 0
  }

  function Better(other: Outcome, own: Outcome): Outcome {
    if Rank(other) > Rank(own) then other else own
  }

  function VerdictOfFile(j: Judging, file: Buffer, sidecar: Option<Buffer>): Outcome {
    match ExtractProof(j, file, sidecar)
    case Corrupted => CorruptedProof
    case Unsupported(_) => UnsupportedFormatVersion
    case Nested => NestedProof
    case NothingFound => NoProofFound
    case Found(payload, media, source, alternate) =>
      var own := j.Judge(payload, media);
      if alternate.Some? && Rank(j.Judge(alternate.value, media)) > Rank(own) then j.Judge(alternate.value, media)
      else if source.FromManifest? && source.depth >= 1 && (own == TamperedFile || own == FramesNotCompared) then NoProofFound
      else own
  }

  function VerifyFile(j: Judging, file: Buffer, sidecar: Option<Buffer>): Outcome {
    var verdict := VerdictOfFile(j, file, sidecar);
    var start := UnreadableTrailerStart(j.crc, file);
    if sidecar.None? || start.None? then verdict
    else Better(j.Judge(sidecar.value, file[..start.value]), verdict)
  }

  // ---- a sidecar beside the file ----

  /** The file's own proof is one up its `parentOf` chain. */
  predicate OwnIsAncestor(j: Judging, file: Buffer) {
    var own := ExtractProof(j, file, None);
    own.Found? && own.source.FromManifest? && own.source.depth >= 1
  }

  /**
   A sidecar lowers the rank only of a file whose own proof is an ancestor's: a
   readable trailer, the active manifest's proof or no proof at all never does worse
   with one beside it.
   */
  lemma SidecarNeverLowers(j: Judging, file: Buffer, sidecar: Buffer)
    requires !OwnIsAncestor(j, file) && j.Valid()
    ensures Rank(VerifyFile(j, file, Some(sidecar))) >= Rank(VerifyFile(j, file, None))
  {
    hide ParseTrailer, UnreadableTrailerStart, ParseProof, SameProof;
    assert j.copiesIn(file).ancestor.Some? ==> j.copiesIn(file).depth >= 1;
  }

  /** For such a file the sidecar takes the ancestor's place: the rank falls exactly when neither of its readings reaches it. */
  lemma SidecarOverAncestor(j: Judging, file: Buffer, sidecar: Buffer)
    requires OwnIsAncestor(j, file) && j.Valid()
    ensures var alone, beside := Rank(VerifyFile(j, file, None)), Rank(VerifyFile(j, file, Some(sidecar)));
            var start := UnreadableTrailerStart(j.crc, file);
            beside < alone <==> Rank(j.Judge(sidecar, file)) < alone && (start.Some? ==> Rank(j.Judge(sidecar, file[..start.value])) < alone)
  {
    hide ParseTrailer, UnreadableTrailerStart, ParseProof, SameProof;
  }

  lemma NoProofInNothing()
    ensures ParseProof([]) == None
  {
  }

  /**
   Some sidecar lowers a file's rank exactly when the file's own proof is an ancestor's
   and proves something: then the empty sidecar does.
   */
  lemma SidecarLowersExactly(j: Judging, file: Buffer)
    requires j.Valid()
    ensures (exists sidecar :: Rank(VerifyFile(j, file, Some(sidecar))) < Rank(VerifyFile(j, file, None)))
       <==> OwnIsAncestor(j, file) && Rank(VerifyFile(j, file, None)) > 0
    ensures OwnIsAncestor(j, file) && Rank(VerifyFile(j, file, None)) > 0 ==> Rank(VerifyFile(j, file, Some([]))) < Rank(VerifyFile(j, file, None))
  {
    NoProofInNothing();
    hide VerifyFile, OwnIsAncestor, ParseProof;
    if OwnIsAncestor(j, file) {
      SidecarOverAncestor(j, file, []);
    } else {
      forall sidecar
        ensures Rank(VerifyFile(j, file, Some(sidecar))) >= Rank(VerifyFile(j, file, None))
      {
        SidecarNeverLowers(j, file, sidecar);
      }
    }
  }

  /** Two payloads that are the same proof are judged alike. */
  lemma SameProofJudgedAlike(j: Judging, a: Buffer, b: Buffer, media: Buffer)
    requires SameProof(a, b)
    ensures j.Judge(a, media) == j.Judge(b, media)
  {
    SameProofExact(a, b);
  }

  /** Over bytes without a trailer a sidecar is always heard: the verdict ranks at least as high as its own. */
  lemma SidecarIsHeard(j: Judging, media: Buffer, sidecar: Buffer)
    requires ParseTrailer(j.crc, media).NoTrailer?
    ensures Rank(VerifyFile(j, media, Some(sidecar))) >= Rank(j.Judge(sidecar, media))
  {
    hide ParseTrailer, UnreadableTrailerStart, ParseProof, SameProof;
    var copies := j.copiesIn(media);
    if copies.active.Some? && SameProof(sidecar, copies.active.value) {
      SameProofJudgedAlike(j, sidecar, copies.active.value, media);
    }
  }

  /**
   Appending a trailer gains nothing: whenever a sidecar wins over a readable
   trailer, the file without that trailer reaches at least the same rank.
   */
  lemma DeletingTheTrailerGivesAsMuch(j: Judging, file: Buffer, sidecar: Buffer)
    requires ParseTrailer(j.crc, file).OkTrailer?
    requires var t := ParseTrailer(j.crc, file);
             Rank(VerifyFile(j, file, Some(sidecar))) > Rank(j.Judge(t.payload, file[..t.mediaEnd]))
    ensures var media := file[..ParseTrailer(j.crc, file).mediaEnd];
            Rank(VerifyFile(j, media, Some(sidecar))) >= Rank(VerifyFile(j, file, Some(sidecar)))
  {
    hide ParseTrailer, ParseProof, SameProof;
    var media := file[..ParseTrailer(j.crc, file).mediaEnd];
    if ParseTrailer(j.crc, media).NoTrailer? {
      SidecarIsHeard(j, media, sidecar);
    }
  }

  /** The same of an unreadable footer, when the bytes left do not end in another trailer. */
  lemma DeletingTheFooterGivesAsMuch(j: Judging, file: Buffer, sidecar: Buffer)
    requires UnreadableTrailerStart(j.crc, file).Some?
    requires ParseTrailer(j.crc, file[..UnreadableTrailerStart(j.crc, file).value]).NoTrailer?
    requires VerifyFile(j, file, Some(sidecar)) != VerdictOfFile(j, file, Some(sidecar))
    ensures var media := file[..UnreadableTrailerStart(j.crc, file).value];
            Rank(VerifyFile(j, media, Some(sidecar))) >= Rank(VerifyFile(j, file, Some(sidecar)))
  {
    SidecarIsHeard(j, file[..UnreadableTrailerStart(j.crc, file).value], sidecar);
  }

  // ---- which verdict it is ----

  /** One outcome says strictly more about the received bytes than another. */
  predicate Beats(a: Outcome, b: Outcome) {
    || (a == Authentic && b != Authentic)
    || (a == VerifiedClip && b != Authentic && b != VerifiedClip)
    || (a == FramesNotCompared && b != Authentic && b != VerifiedClip && b != FramesNotCompared)
  }

  lemma RankIsBeats(a: Outcome, b: Outcome)
    ensures Rank(a) > Rank(b) <==> Beats(a, b)
  {
  }

  /** The first outcome, unless the second beats it. */
  function BestOf(own: Outcome, other: Outcome): Outcome {
    if Beats(other, own) then other else own
  }

  /** A file with a usable trailer behind bytes without one: the trailer's proof over those bytes, or a sidecar of other bytes that beats it there. */
  lemma TrailerVerdict(j: Judging, file: Buffer, sidecar: Option<Buffer>)
    requires var t := ParseTrailer(j.crc, file); t.OkTrailer? && ParseTrailer(j.crc, file[..t.mediaEnd]).NoTrailer?
    ensures var t := ParseTrailer(j.crc, file);
            var media := file[..t.mediaEnd];
            VerifyFile(j, file, sidecar) ==
            if sidecar.None? || sidecar.value == t.payload then j.Judge(t.payload, media)
            else BestOf(j.Judge(t.payload, media), j.Judge(sidecar.value, media))
  {
    hide ParseTrailer, ParseProof, SameProof;
    UsableIsReadable(j, file);
    hide UnreadableTrailerStart;
  }

  lemma UsableIsReadable(j: Judging, file: Buffer)
    ensures ParseTrailer(j.crc, file).OkTrailer? ==> UnreadableTrailerStart(j.crc, file).None?
  {
    hide ParseTrailer;
  }

  /** What a sidecar is judged over when the file ends in a footer no reader can use, beside the verdict so far. */
  function BesideFooter(j: Judging, file: Buffer, sidecar: Option<Buffer>, own: Outcome): Outcome {
    var start := UnreadableTrailerStart(j.crc, file);
    if sidecar.Some? && start.Some? then BestOf(own, j.Judge(sidecar.value, file[..start.value])) else own
  }

  /** A footer that cannot be used, or a trailer behind another, is what it is, unless a sidecar says more of the bytes in front of it. */
  lemma RefusedVerdict(j: Judging, file: Buffer, sidecar: Option<Buffer>)
    ensures ParseTrailer(j.crc, file).CorruptedTrailer? ==> VerifyFile(j, file, sidecar) == BesideFooter(j, file, sidecar, CorruptedProof)
    ensures ParseTrailer(j.crc, file).UnsupportedTrailer? ==> VerifyFile(j, file, sidecar) == BesideFooter(j, file, sidecar, UnsupportedFormatVersion)
    ensures var t := ParseTrailer(j.crc, file);
            t.OkTrailer? && !ParseTrailer(j.crc, file[..t.mediaEnd]).NoTrailer? ==> VerifyFile(j, file, sidecar) == NestedProof
  {
    UsableIsReadable(j, file);
    hide ParseTrailer, ParseProof, SameProof, UnreadableTrailerStart;
  }

  /** Without a trailer: the active manifest's proof, or a sidecar of another value that beats it; then the sidecar; then nothing. */
  lemma CarriedVerdict(j: Judging, file: Buffer, sidecar: Option<Buffer>)
    requires ParseTrailer(j.crc, file).NoTrailer? && (sidecar.Some? || !OwnIsAncestor(j, file))
    requires j.Valid()
    ensures var active := j.copiesIn(file).active;
            VerifyFile(j, file, sidecar) == BesideFooter(j, file, sidecar,
              if active.Some? then
                if sidecar.None? || SameProof(sidecar.value, active.value) then j.Judge(active.value, file)
                else BestOf(j.Judge(active.value, file), j.Judge(sidecar.value, file))
              else if sidecar.Some? then j.Judge(sidecar.value, file) else NoProofFound)
  {
    hide ParseTrailer, ParseProof, SameProof, UnreadableTrailerStart;
  }

  /**
   A proof found up the `parentOf` chain is one of a source capture: it proves what the
   judge grants it over the file, *authentic* or *verified clip*, and is never held against
   the file: where it reads *tampered* or *frames not compared* there is no proof of it.
   */
  lemma AncestorVerdict(j: Judging, file: Buffer)
    requires j.Valid()
    ensures OwnIsAncestor(j, file) <==>
            ParseTrailer(j.crc, file).NoTrailer? && j.copiesIn(file).active.None? && j.copiesIn(file).ancestor.Some?
    ensures OwnIsAncestor(j, file) ==>
            && var judged, verdict := j.Judge(j.copiesIn(file).ancestor.value, file), VerifyFile(j, file, None);
            && verdict != TamperedFile && verdict != FramesNotCompared
            && (judged == TamperedFile || judged == FramesNotCompared ==> verdict == NoProofFound)
            && (judged != TamperedFile && judged != FramesNotCompared ==> verdict == judged)
  {
    hide ParseTrailer, ParseProof, SameProof, UnreadableTrailerStart;
  }
}

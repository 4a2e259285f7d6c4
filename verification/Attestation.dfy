/**
 What an attestation chain proves (the tail of `validateChain`, tools/src/attestation.ts)
 and its frozen revocation status (`frozenRevocation`, tools/src/verify.ts). Certificate
 parsing and the path walk are not part of this model: their findings are inputs.
 */
module Attestation {
  import opened ByteStrings
  import opened Registry

  datatype SecurityLevel = Software | Tee | StrongBox

  datatype Boot = Boot(locked: bool, state: string)

  /** The leaf's key description; `boot` and `origin` come from the hardware-enforced list only. */
  datatype KeyDescription = KeyDescription(
    attestation: SecurityLevel, keyMint: SecurityLevel, boot: Option<Boot>, origin: Option<nat>, appSigningDigests: Option<seq<string>>)

  /** The path walk at one instant: how many checks failed, and what the leaf carries (none when absent or unreadable). */
  datatype ChainWalk =
    | NotAChain
    | Walked(failures: nat, expiredSince: bool, description: Option<KeyDescription>, serials: seq<string>)

  datatype ChainOutcome = ChainOutcome(
    proven: string, evidenceInvalid: bool, expiredSince: bool, appSigningDigests: Option<seq<string>>, serials: seq<string>)

  function LevelName(level: SecurityLevel): string {
    match level
    case Software => "software"
    case Tee => "tee"
    case StrongBox => "strongbox"
  }

  /** A value outside the table counts as nothing. */
  function Rank(level: string): nat {
    if level == "strongbox" then 2 else if level == "tee" || level == "secureEnclave" then 1 else 0
  }

  const ORIGIN_GENERATED: nat := 0

  function ValidateChain(walk: ChainWalk): ChainOutcome {
    if walk.NotAChain? then ChainOutcome("none", true, false, None, [])
    else if walk.description.None? then ChainOutcome("none", true, walk.expiredSince, None, [])
    else
      var d := walk.description.value;
      var boot := if d.boot.None? || !(d.boot.value.locked && d.boot.value.state == "verified") then 1 else 0;
      var origin := if d.origin != Some(ORIGIN_GENERATED) then 1 else 0;
      var weakest := if Rank(LevelName(d.attestation)) <= Rank(LevelName(d.keyMint)) then d.attestation else d.keyMint;
      var software := if weakest == Software then 1 else 0;
      var failures := walk.failures + boot + origin + software;
      ChainOutcome(if failures == 0 && weakest != Software then LevelName(weakest) else "none", walk.failures > 0, walk.expiredSince, d.appSigningDigests, walk.serials)
  }

  /** The chain proves hardware in which the key was generated, on a locked device that booted verified. */
  predicate ProvesHardware(walk: ChainWalk) {
    && walk.Walked? && walk.failures == 0 && walk.description.Some?
    && var d := walk.description.value;
    && d.boot.Some? && d.boot.value.locked && d.boot.value.state == "verified"
    && d.origin == Some(ORIGIN_GENERATED)
    && d.attestation != Software && d.keyMint != Software
  }

  /** It proves `tee` or `strongbox` exactly then, and `strongbox` only when both levels are: the weaker of the two counts. */
  lemma ProvenExact(walk: ChainWalk)
    ensures ValidateChain(walk).proven != "none" <==> ProvesHardware(walk)
    ensures ProvesHardware(walk) ==>
              ValidateChain(walk).proven ==
              if walk.description.value.attestation == StrongBox && walk.description.value.keyMint == StrongBox then "strongbox" else "tee"
    ensures ProvesHardware(walk) ==> !ValidateChain(walk).evidenceInvalid
  {
    assert "none"[0] == 'n' && "tee"[0] == 't' && "strongbox"[1] == 't' && "software"[1] == 'o';
    assert Rank("software") == 0 by {
      assert "secureEnclave"[1] == 'e';
    }
  }

  // ---- the frozen revocation snapshot ----

  /** A revocation: the date the source gives, and whether its reason reaches back. */
  datatype Revocation = Revocation(revokedAt: Option<int>, retroactive: bool)

  datatype Status = ValidCertificate | Revoked(revocation: Revocation) | UnknownStatus

  /** An element of the snapshot's list; only an object naming a serial counts. */
  datatype Entry = NotAnEntry | Entry(serial: string, status: Status)

  /** `entries` and `fetchedAt` are none when not an array and not a safe non-negative integer; `printed` is the list's canonical JSON. */
  datatype StatusAttachment = StatusAttachment(source: string, entries: Option<seq<Entry>>, printed: Buffer, fetchedAt: Option<nat>, signature: Buffer)

  datatype FrozenStatus = Unchecked | Checked(revoked: seq<Revocation>, incomplete: bool)

  predicate SnapshotSigned(verifies: Signatures, coreHash: Buffer, a: StatusAttachment, signers: seq<TrustedLog>) {
    && a.source == "googleStatusList" && a.entries.Some? && a.fetchedAt.Some?
    && SignedBySome(verifies, signers, AttestationStatusMessage(coreHash, a.printed, a.fetchedAt.value), a.signature)
  }

  /** What the list says about a certificate: its last entry with that serial. */
  function StatusOf(normal: string -> string, entries: seq<Entry>, serial: string): Option<Status> {
    if |entries| == 0 then None
    else
      var last := entries[|entries| - 1];
      if last.Entry? && normal(last.serial) == serial then Some(last.status)
      else StatusOf(normal, entries[..|entries| - 1], serial)
  }

  function RevokedAmong(normal: string -> string, entries: seq<Entry>, serials: seq<string>): seq<Revocation> {
    if |serials| == 0 then []
    else
      var before := RevokedAmong(normal, entries, serials[..|serials| - 1]);
      var status := StatusOf(normal, entries, serials[|serials| - 1]);
      if status.Some? && status.value.Revoked? then before + [status.value.revocation] else before
  }

  predicate Unanswered(normal: string -> string, entries: seq<Entry>, serial: string) {
    var status := StatusOf(normal, entries, serial);
    status.None? || status.value.UnknownStatus?
  }

  function Frozen(verifies: Signatures, normal: string -> string, coreHash: Buffer, a: StatusAttachment, signers: seq<TrustedLog>, serials: seq<string>): FrozenStatus {
    if !SnapshotSigned(verifies, coreHash, a, signers) then Unchecked
    else
      var entries := a.entries.value;
      Checked(RevokedAmong(normal, entries, serials), exists i | 0 <= i < |serials| :: Unanswered(normal, entries, serials[i]))
  }

  /** The list as a map, later entries over earlier ones. */
  method IndexBySerial(normal: string -> string, entries: seq<Entry>) returns (bySerial: map<string, Status>)
    ensures forall s :: StatusOf(normal, entries, s) == if s in bySerial then Some(bySerial[s]) else None
  {
    bySerial := map[];
    for i := 0 to |entries|
      invariant forall s :: StatusOf(normal, entries[..i], s) == if s in bySerial then Some(bySerial[s]) else None
    {
      assert entries[..i + 1][..i] == entries[..i];
      if entries[i].Entry? {
        bySerial := bySerial[normal(entries[i].serial) := entries[i].status];
      }
    }
    assert entries[..|entries|] == entries;
  }

  method FrozenRevocation(verifies: Signatures, normal: string -> string, coreHash: Buffer, a: StatusAttachment, signers: seq<TrustedLog>, serials: seq<string>)
    returns (frozen: FrozenStatus)
    ensures frozen == Frozen(verifies, normal, coreHash, a, signers, serials)
  {
    if a.source != "googleStatusList" || a.entries.None? || a.fetchedAt.None? {
      return Unchecked;
    }
    var message := AttestationStatusMessage(coreHash, a.printed, a.fetchedAt.value);
    var signed := SignedBySome(verifies, signers, message, a.signature);
    if !signed {
      return Unchecked;
    }
    var entries := a.entries.value;
    var bySerial := IndexBySerial(normal, entries);
    var revoked: seq<Revocation> := [];
    var incomplete := false;
    for i := 0 to |serials|
      invariant revoked == RevokedAmong(normal, entries, serials[..i])
      invariant incomplete <==> exists k | 0 <= k < i :: Unanswered(normal, entries, serials[k])
    {
      assert serials[..i + 1][..i] == serials[..i];
      var serial := serials[i];
      if serial !in bySerial || bySerial[serial].UnknownStatus? {
        assert Unanswered(normal, entries, serials[i]);
        incomplete := true;
        continue;
      }
      if bySerial[serial].Revoked? {
        revoked := revoked + [bySerial[serial].revocation];
      }
    }
    assert serials[..|serials|] == serials;
    frozen := Checked(revoked, incomplete);
  }

  /** Every certificate the list calls revoked is reported, and nothing else is. */
  lemma {:induction false} RevokedExact(normal: string -> string, entries: seq<Entry>, serials: seq<string>, r: Revocation)
    ensures r in RevokedAmong(normal, entries, serials) <==>
            exists i | 0 <= i < |serials| :: StatusOf(normal, entries, serials[i]) == Some(Revoked(r))
  {
    if |serials| > 0 {
      var n := |serials| - 1;
      RevokedExact(normal, entries, serials[..n], r);
      assert forall i | 0 <= i < n :: serials[..n][i] == serials[i];
      if StatusOf(normal, entries, serials[n]) == Some(Revoked(r)) {
        assert r in RevokedAmong(normal, entries, serials);
      }
    }
  }
}

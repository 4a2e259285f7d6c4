/**
 The evidence layer as `judge` runs it (tools/src/verify.ts): one list of labels that
 every outcome appends to, read at the end for the ceiling.
 */
module Assessment {
  import opened ByteStrings
  import opened Primitives
  import opened Registry
  import opened Attestation
  import opened Level

  function RegistryVerdictOf(env: Env, e: Evidence): RegistryVerdict {
    var outcome := RegistryOf(env, e);
    if outcome.NotRegistered? then NoRegistry
    else InRegistry(outcome.secureHw, BeforeCapture(outcome.headTimestamp, e.deviceClock, TimestampOf(env, e)), DeclaredDigests(env, e))
  }

  lemma TrustedIs(env: Env, e: Evidence)
    ensures var (instant, source) := ValidatedAt(env, e);
            TrustedInstant(env, e) == if source == FromTimestamp || source == FromAnchor then Some(instant) else None
  {
    hide ValidatedAt;
  }

  /** A stretch of the list without `gone` is passed over. */
  lemma {:induction false} PassedOver(labels: seq<Label>, at: nat, gone: Label)
    requires at <= |labels| && gone !in labels[..at]
    ensures Without(labels, gone) == labels[..at] + Without(labels[at..], gone)
  {
    if at > 0 {
      assert labels[1..][..at - 1] == labels[1..at];
      assert labels[1..][at - 1..] == labels[at..];
      assert gone !in labels[1..at];
      PassedOver(labels[1..], at - 1, gone);
      assert labels[0] == labels[..at][0];
    }
  }

  class Labels {
    var shown: seq<Label>

    constructor (shown: seq<Label>)
      ensures this.shown == shown
    {
      this.shown := shown;
    }

    method Push(more: seq<Label>)
      modifies this
      ensures shown == old(shown) + more
    {
      shown := shown + more;
    }

    /** Takes out the first `gone`, if there is one. */
    method Splice(gone: Label)
      modifies this
      ensures shown == Without(old(shown), gone)
    {
      var at := 0;
      while at < |shown| && shown[at] != gone
        invariant 0 <= at <= |shown| && gone !in shown[..at]
      {
        at := at + 1;
      }
      PassedOver(shown, at, gone);
      if at < |shown| {
        assert shown[at..][1..] == shown[at + 1..];
        shown := shown[..at] + shown[at + 1..];
      }
    }

    method Anchor(env: Env, e: Evidence) returns (outcome: AnchorOutcome)
      modifies this
      ensures outcome == AnchorOf(env, e)
      ensures shown == old(shown) + AnchorLabels(env, e)
    {
      hide VerifyAnchor;
      if e.anchor.None? {
        Push([NotAnchoredLabel]);
        return NotAnchored;
      }
      outcome := VerifyAnchor(env.h, e.anchor.value, e.coreHash, e.chainRead);
      if outcome.NotAnchored? {
        Push([NotAnchoredLabel, AnchorInvalid]);
        return;
      }
      if !outcome.onChain {
        Push([AnchoringNotVerified]);
      }
    }

    /** The token's own outcome, and then its agreement with the block. */
    method Timestamp(env: Env, e: Evidence, anchor: AnchorOutcome) returns (timestamp: TimestampVerdict)
      requires anchor == AnchorOf(env, e)
      modifies this
      ensures timestamp == TimestampOf(env, e)
      ensures shown == old(shown) + TokenLabels(e.token) + AgreementLabels(env, e)
    {
      hide AnchorOf;
      timestamp := NoTimestamp;
      match e.token {
        case Absent => Push([NoTrustedTime]);
        case NoRoots => Push([TrustedTimeNotEvaluated]);
        case Invalid => Push([NoTrustedTime, TimestampInvalid]);
        case Valid(genTime, from, to) => timestamp := Stamped(genTime);
      }
      if timestamp.Stamped? && anchor.Anchored? && anchor.blockTime.Some? {
        var block := anchor.blockTime.value;
        if e.token.genTime > block || block < e.token.from || block > e.token.to {
          Push([NoTrustedTime, TimestampInvalid]);
          timestamp := NoTimestamp;
        }
      }
    }

    method Registered(env: Env, e: Evidence, timestamp: TimestampVerdict) returns (verdict: RegistryVerdict)
      requires timestamp == TimestampOf(env, e)
      modifies this
      ensures verdict == RegistryVerdictOf(env, e)
      ensures shown == old(shown) + RegistryLabels(env, e)
    {
      hide VerifyRegistry, TimestampOf, FindLog;
      if e.registry.None? {
        Push([KeyNotInLog]);
        return NoRegistry;
      }
      var outcome := VerifyRegistry(env.h, env.enc, env.verifies, e.registry.value, e.keyId, e.sigPub, env.logs);
      if outcome.NotRegistered? {
        if !outcome.trusted {
          Push([LogNotTrusted]);
        } else {
          Push([KeyNotInLog, RegistryInvalid]);
        }
        return NoRegistry;
      }
      var head := outcome.headTimestamp;
      if e.deviceClock.Some? && head > e.deviceClock.value {
        Push([RegisteredAfterCapture]);
      }
      if timestamp.Stamped? && head > timestamp.genTime {
        Push([RegisteredAfterTrustedTime]);
      }
      var beforeCapture := e.deviceClock.Some? && head <= e.deviceClock.value && (timestamp.NoTimestamp? || head <= timestamp.genTime);
      var log := FindLog(env.logs, e.registry.value.logId);
      verdict := InRegistry(outcome.secureHw, beforeCapture, if log.None? then None else log.value.appSigningDigests);
    }

    method Integrity(env: Env, e: Evidence, signers: seq<TrustedLog>) returns (proven: bool)
      requires signers == SigningLogs(env, e)
      modifies this
      ensures proven <==> IntegrityProven(env, e)
      ensures shown == old(shown) + IntegrityLabels(env, e)
    {
      hide VerifyIntegrity, SigningLogs;
      if e.integrity.None? {
        Push([IntegrityUnevaluated]);
        return false;
      }
      var outcome := VerifyIntegrity(env.verifies, e.integrity.value, e.coreHash, signers);
      if outcome.NotAttested? {
        Push([IntegrityUnevaluated]);
        if outcome.trusted && outcome.evaluated {
          Push([IntegrityInvalid]);
        }
        return false;
      }
      Push([IntegrityVerdict(outcome.verdict)]);
      proven := outcome.verdict == "hardware" && outcome.source == "playIntegrity" && e.platform == "android";
    }

    /** The level: the instant, what is proven at it, and the ceiling the labels leave. */
    method Level(env: Env, e: Evidence, signers: seq<TrustedLog>, registry: RegistryVerdict, anchor: AnchorOutcome, timestamp: TimestampVerdict, deviceIntegrity: bool)
      returns (verdict: LevelVerdict)
      requires signers == SigningLogs(env, e) && registry == RegistryVerdictOf(env, e) && anchor == AnchorOf(env, e)
      requires timestamp == TimestampOf(env, e) && deviceIntegrity == IntegrityProven(env, e)
      modifies this
      ensures shown == LevelLabels(env, e, old(shown))
      ensures verdict.ceiling == CeilingOf(env, e, shown)
      ensures verdict.claimed == ClaimedLevel(e) && verdict.proven == ProvenLevel(env, e)
      ensures (verdict.instant, verdict.source) == ValidatedAt(env, e)
    {
      hide KeyStatusLabels, ChainLabels, RevocationLabels, AppLabels, Inconsistent, RegistryProves, ChainIsRevoked, IntegrityProven, SigningLogs, ClaimedLevel,
           Without, Clean, AnchorOf, TimestampOf, ValidatedAt, BeforeCapture, DeclaredDigests;
      var instant, source := Instant(env, e, anchor, timestamp);
      var trusted := source == FromTimestamp || source == FromAnchor;
      TrustedIs(env, e);
      KeyStatus(env, e, signers, registry, if trusted then instant else env.clock);
      var chain, proven := Chain(env, e, instant, source);
      proven := Enclave(env, e, chain, registry, proven);
      proven := Revocation(env, e, signers, chain, proven);
      Consistency(env, e, chain, registry);
      App(env, e, chain, registry);
      hide ChainOf, RegistryOf, RegistryVerdictOf;
      if proven != "none" && !deviceIntegrity {
        Push([IntegrityNotProven]);
      }
      var ceiling := Ceiling(env, e, registry, proven, trusted);
      hide LevelLabels, ProvenLevel, CeilingOf;
      verdict := LevelVerdict(ClaimedLevel(e), proven, ceiling, instant, source);
    }

    method Ceiling(env: Env, e: Evidence, registry: RegistryVerdict, proven: string, trusted: bool) returns (ceiling: Ceiling)
      requires registry == RegistryVerdictOf(env, e) && proven == ProvenLevel(env, e) && trusted == TrustedInstant(env, e).Some?
      ensures ceiling == CeilingOf(env, e, shown)
    {
      hide ProvenLevel, TrustedInstant, RegistryOf, BeforeCapture, Clean, DeclaredDigests;
      var green := proven != "none" && registry.InRegistry? && registry.beforeCapture && trusted && Clean(shown);
      ceiling := if AttestationKeyRevoked in shown || KeyRevoked in shown then Red else if green then Green else Amber;
    }

    /** The instant, in its order of trust. */
    method Instant(env: Env, e: Evidence, anchor: AnchorOutcome, timestamp: TimestampVerdict) returns (instant: int, source: Source)
      requires anchor == AnchorOf(env, e) && timestamp == TimestampOf(env, e)
      ensures (instant, source) == ValidatedAt(env, e)
    {
      hide AnchorOf, TimestampOf;
      var anchored := if anchor.Anchored? then anchor.blockTime else None;
      instant, source := env.clock, FromVerifierClock;
      if timestamp.Stamped? {
        instant, source := timestamp.genTime, FromTimestamp;
      } else if anchored.Some? {
        instant, source := anchored.value, FromAnchor;
      } else if e.deviceClock.Some? {
        instant, source := e.deviceClock.value, FromDeviceClock;
      }
    }

    /** iOS carries no chain: a registered key takes the level its leaf records. */
    method Enclave(env: Env, e: Evidence, chain: Option<ChainOutcome>, registry: RegistryVerdict, before: string) returns (proven: string)
      requires chain == ChainOf(env, e) && registry == RegistryVerdictOf(env, e)
      modifies this
      ensures proven == if RegistryProves(env, e) then "secureEnclave" else before
      ensures shown == if RegistryProves(env, e) then Without(old(shown) + [LevelFromRegistry], OriginNotAttested) else old(shown)
    {
      hide ChainOf, RegistryOf, BeforeCapture, DeclaredDigests, Without;
      proven := before;
      if chain.None? && e.platform == "ios" && registry.InRegistry? && registry.secureHw == "secureEnclave" {
        proven := "secureEnclave";
        Push([LevelFromRegistry]);
        Splice(OriginNotAttested);
      }
    }

    method Consistency(env: Env, e: Evidence, chain: Option<ChainOutcome>, registry: RegistryVerdict)
      requires chain == ChainOf(env, e) && registry == RegistryVerdictOf(env, e)
      modifies this
      ensures shown == old(shown) + if Inconsistent(env, e) then [InconsistentClaim] else []
    {
      hide ChainOf, RegistryOf, BeforeCapture, DeclaredDigests, ClaimedLevel, Rank;
      var holds := chain.Some? && env.attestationRoots > 0 && !chain.value.evidenceInvalid;
      var attested := if holds then chain.value.proven else "none";
      var claimed := ClaimedLevel(e);
      if (holds && Above(claimed, attested)) || (holds && registry.InRegistry? && Above(registry.secureHw, attested))
         || (e.platform == "ios" && registry.InRegistry? && Above(claimed, registry.secureHw)) {
        Push([InconsistentClaim]);
      }
    }

    method KeyStatus(env: Env, e: Evidence, signers: seq<TrustedLog>, registry: RegistryVerdict, at: int)
      requires signers == SigningLogs(env, e) && registry == RegistryVerdictOf(env, e)
      requires at == if TrustedInstant(env, e).Some? then TrustedInstant(env, e).value else env.clock
      modifies this
      ensures shown == old(shown) + KeyStatusLabels(env, e)
    {
      hide RegistryOf, SigningLogs, TrustedInstant, VerifyKeyStatus;
      if registry.InRegistry? {
        var status := if e.keyStatus.None? then None else VerifyKeyStatus(env.verifies, e.keyStatus.value, e.keyId, at, signers);
        if status == Some(2) {
          Push([KeyRevoked]);
        } else if status.None? || status.value == 0 {
          Push([RevocationNotChecked]);
        }
      }
    }

    method Chain(env: Env, e: Evidence, instant: int, source: Source) returns (chain: Option<ChainOutcome>, proven: string)
      requires (instant, source) == ValidatedAt(env, e)
      modifies this
      ensures chain == ChainOf(env, e)
      ensures proven == if chain.Some? && env.attestationRoots > 0 then chain.value.proven else "none"
      ensures shown == old(shown) + ChainLabels(env, e)
    {
      hide ValidateChain, ValidatedAt;
      chain, proven := None, "none";
      if e.attestation.Some? && e.platform == "android" {
        chain := Some(ValidateChain(e.attestation.value(instant, env.clock)));
        if env.attestationRoots == 0 {
          Push([AttestationNotEvaluated]);
        } else {
          proven := chain.value.proven;
          if chain.value.proven == "none" {
            Push(if chain.value.evidenceInvalid then [OriginNotAttested, AttestationInvalid] else [OriginNotAttested]);
          }
          if chain.value.expiredSince && source == FromDeviceClock {
            Push([ChainExpired]);
          }
        }
      }
    }

    method Revocation(env: Env, e: Evidence, signers: seq<TrustedLog>, chain: Option<ChainOutcome>, before: string) returns (proven: string)
      requires signers == SigningLogs(env, e) && chain == ChainOf(env, e)
      modifies this
      ensures proven == if ChainIsRevoked(env, e) then "none" else before
      ensures shown == old(shown) + RevocationLabels(env, e)
    {
      hide ChainOf, SigningLogs, Frozen, ValidatedAt, AllLater;
      proven := before;
      if chain.Some? && env.attestationRoots > 0 && !chain.value.evidenceInvalid {
        var frozen := Unchecked;
        if e.status.Some? {
          frozen := FrozenRevocation(env.verifies, env.normal, e.coreHash, e.status.value, signers, chain.value.serials);
        }
        if frozen.Checked? && |frozen.revoked| > 0 {
          if AllLater(frozen.revoked, TrustedInstant(env, e)) {
            Push([RevokedAfterCapture]);
          } else {
            proven := "none";
            Push([AttestationKeyRevoked]);
          }
        } else if frozen.Unchecked? || frozen.incomplete {
          Push([ChainRevocationNotChecked]);
        }
      }
    }

    method App(env: Env, e: Evidence, chain: Option<ChainOutcome>, registry: RegistryVerdict)
      requires chain == ChainOf(env, e) && registry == RegistryVerdictOf(env, e)
      modifies this
      ensures shown == old(shown) + AppLabels(env, e)
    {
      hide ChainOf, RegistryOf, DeclaredDigests, AppAdmitted;
      if chain.Some? && env.attestationRoots > 0 && !chain.value.evidenceInvalid && registry.InRegistry? {
        var declared, carried := registry.appSigningDigests, chain.value.appSigningDigests;
        if declared.None? || |declared.value| == 0 || carried.None? {
          Push([AppNotChecked]);
        } else if !AppAdmitted(declared, carried) {
          Push([AppNotAdmitted]);
        }
      }
    }

    /** The whole layer in `judge`'s order: the ceiling is green, and red, exactly when the evidence earns it. */
    method Assess(env: Env, e: Evidence, presentationDiffers: bool, timingDiffers: bool) returns (verdict: LevelVerdict)
      requires Clean(shown) && NoRed(shown)
      modifies this
      ensures verdict.ceiling == Green <==> EarnsGreen(env, e, presentationDiffers, timingDiffers)
      ensures verdict.ceiling == Red <==> KeyIsRevoked(env, e) || ChainIsRevoked(env, e)
      ensures verdict.claimed == ClaimedLevel(e) && verdict.proven == ProvenLevel(env, e)
      ensures (verdict.instant, verdict.source) == ValidatedAt(env, e)
      ensures shown == LevelLabels(env, e, old(shown) + EvidenceLabels(env, e) + Marks(presentationDiffers, timingDiffers))
    {
      hide EarnsGreen, KeyIsRevoked, ChainIsRevoked, LevelLabels, CeilingOf, AnchorLabels, TokenLabels, AgreementLabels, RegistryLabels, IntegrityLabels,
           AnchorOf, TimestampOf, SigningLogs, IntegrityProven, RegistryVerdictOf, ClaimedLevel, ProvenLevel, ValidatedAt, Clean;
      ghost var prior := shown;
      var anchor := Anchor(env, e);
      var timestamp := Timestamp(env, e, anchor);
      Push(if e.deviceClock.None? then [CaptureTimeNotDeclared] else []);
      var registry := Registered(env, e, timestamp);
      var signers := SigningLogs(env, e);
      var deviceIntegrity := Integrity(env, e, signers);
      assert shown == prior + EvidenceLabels(env, e);
      Push(if presentationDiffers then [PresentationDiffers] else []);
      Push(if timingDiffers then [TimingDiffers] else []);
      assert shown == prior + EvidenceLabels(env, e) + Marks(presentationDiffers, timingDiffers);
      CeilingExact(env, e, prior, presentationDiffers, timingDiffers);
      verdict := Level(env, e, signers, registry, anchor, timestamp, deviceIntegrity);
    }
  }
}

/**
 What the evidence labels and the level say (tools/src/verify.ts): for each label, the
 attachments under which it is there, and for each level, the evidence that proves it.
 */
module LabelMeaning {
  import opened ByteStrings
  import opened Primitives
  import opened Merkle
  import opened Registry
  import opened Attestation
  import opened Level
  import opened CeilingMeaning

  // ---- the anchor and the token ----

  /** The core hash climbs to the anchor's root, and no contract read says otherwise. */
  predicate AnchorHolds(env: Env, e: Evidence) {
    && e.anchor.Some?
    && var a := e.anchor.value;
    && |a.root| == 32 && AllDigests(a.path)
    && 0 <= a.index < a.treeSize && Climb(env.h, LeafHash(env.h, e.coreHash), a.index, a.treeSize, Digests(a.path)) == Some(a.root)
    && (e.chainRead.Some? ==> e.chainRead.value.treeSize == a.treeSize && e.chainRead.value.root == a.root)
  }

  /** The labels an anchor or a token is shown with. */
  ghost predicate TimeMeans(env: Env, e: Evidence, shown: Label) {
    match shown
    case NotAnchoredLabel => !AnchorHolds(env, e)
    case AnchorInvalid => e.anchor.Some? && !AnchorHolds(env, e)
    case AnchoringNotVerified => AnchorHolds(env, e) && e.chainRead.None?
    case NoTrustedTime => !TokenStands(env, e) && !e.token.NoRoots?
    case TimestampInvalid => e.token.Invalid? || (e.token.Valid? && !TokenStands(env, e))
    case TrustedTimeNotEvaluated => e.token.NoRoots?
    case _ => false
  }

  lemma TimeLabels(env: Env, e: Evidence, shown: Label)
    ensures shown in AnchorLabels(env, e) + TokenLabels(e.token) + AgreementLabels(env, e) <==> TimeMeans(env, e, shown)
  {
    AnchorExactly(env, e);
    StampExact(env, e);
    hide AnchorHolds, TokenStands, AnchorOf, AnchoredAt, TokenAgrees;
    var anchor, token, agreement := AnchorLabels(env, e), TokenLabels(e.token), AgreementLabels(env, e);
    assert AnchorOf(env, e).Anchored? || AnchorOf(env, e).NotAnchored?;
    assert shown in anchor + token + agreement <==> shown in anchor || shown in token || shown in agreement;
  }

  lemma AnchorExactly(env: Env, e: Evidence)
    ensures AnchorOf(env, e).Anchored? <==> AnchorHolds(env, e)
    ensures AnchorHolds(env, e) ==> e.anchor.Some?
    ensures AnchorHolds(env, e) ==> (AnchorOf(env, e).onChain <==> e.chainRead.Some?)
  {
    hide Climb, LeafHash, Digests;
  }

  // ---- registry and integrity ----

  predicate LogKnown(env: Env, e: Evidence) {
    e.registry.Some? && var log := FindLog(env.logs, e.registry.value.logId); log.Some? && log.value.key.Some?
  }

  /** A verdict of a source this verifier reads, signed by a log that speaks for the proof. */
  predicate VerdictSigned(env: Env, e: Evidence) {
    && e.integrity.Some? && e.integrity.value.source in {"playIntegrity", "appAttest", "none"}
    && LogSigned(env, e, Some(IntegrityMessage(e.coreHash, e.integrity.value.printed)), e.integrity.value.signature)
  }

  predicate VerdictRead(env: Env, e: Evidence) {
    VerdictSigned(env, e) && e.integrity.value.verdict in {"hardware", "basic", "unevaluated", "failed"} && e.integrity.value.evaluatedAt.Some?
  }

  ghost predicate LogMeans(env: Env, e: Evidence, shown: Label) {
    match shown
    case CaptureTimeNotDeclared => e.deviceClock.None?
    case KeyNotInLog => e.registry.None? || (LogKnown(env, e) && !InLog(env, e))
    case RegistryInvalid => LogKnown(env, e) && !InLog(env, e)
    case LogNotTrusted => e.registry.Some? && !LogKnown(env, e)
    case RegisteredAfterCapture => InLog(env, e) && e.deviceClock.Some? && e.registry.value.head.timestamp > e.deviceClock.value
    case RegisteredAfterTrustedTime => InLog(env, e) && TokenStands(env, e) && e.registry.value.head.timestamp > e.token.genTime
    case IntegrityUnevaluated => !VerdictRead(env, e)
    case IntegrityInvalid => VerdictSigned(env, e) && !VerdictRead(env, e)
    case IntegrityVerdict(verdict) => VerdictRead(env, e) && verdict == e.integrity.value.verdict
    case _ => false
  }

  lemma IntegrityExactly(env: Env, e: Evidence)
    ensures IntegrityOf(env, e).Attested? <==> VerdictRead(env, e)
    ensures VerdictRead(env, e) ==> IntegrityOf(env, e).verdict == e.integrity.value.verdict
    ensures IntegrityOf(env, e).NotAttested? ==>
              (e.integrity.Some? && IntegrityOf(env, e).trusted && IntegrityOf(env, e).evaluated <==> VerdictSigned(env, e) && !VerdictRead(env, e))
  {
    hide SigningLogs, LogSigned, IntegrityMessage, SignedBySome;
    if e.integrity.Some? {
      LogSignedExact(env, e, Some(IntegrityMessage(e.coreHash, e.integrity.value.printed)), e.integrity.value.signature);
    }
  }

  lemma LogLabels(env: Env, e: Evidence, shown: Label)
    ensures shown in (if e.deviceClock.None? then [CaptureTimeNotDeclared] else []) + RegistryLabels(env, e) + IntegrityLabels(env, e) <==> LogMeans(env, e, shown)
  {
    RegistryExactly(env, e, shown);
    IntegrityExactly(env, e);
    hide RegistryLabels, IntegrityOf, VerdictRead, VerdictSigned, LogKnown, InLog, TokenStands;
    var clock: seq<Label> := if e.deviceClock.None? then [CaptureTimeNotDeclared] else [];
    var registry, integrity := RegistryLabels(env, e), IntegrityLabels(env, e);
    assert shown in clock + registry + integrity <==> shown in clock || shown in registry || shown in integrity;
    assert IntegrityOf(env, e).Attested? || IntegrityOf(env, e).NotAttested?;
  }

  lemma RegistryExactly(env: Env, e: Evidence, shown: Label)
    ensures shown in RegistryLabels(env, e) <==>
            match shown
            case KeyNotInLog => e.registry.None? || (LogKnown(env, e) && !InLog(env, e))
            case RegistryInvalid => LogKnown(env, e) && !InLog(env, e)
            case LogNotTrusted => e.registry.Some? && !LogKnown(env, e)
            case RegisteredAfterCapture => InLog(env, e) && e.deviceClock.Some? && e.registry.value.head.timestamp > e.deviceClock.value
            case RegisteredAfterTrustedTime => InLog(env, e) && TokenStands(env, e) && e.registry.value.head.timestamp > e.token.genTime
            case _ => false
  {
    InLogExact(env, e);
    StampExact(env, e);
    InLogIsKnown(env, e);
    hide InLog, TokenStands, RegistryOf, TimestampOf, FindLog;
  }

  lemma InLogIsKnown(env: Env, e: Evidence)
    ensures InLog(env, e) ==> LogKnown(env, e)
  {
    hide FindLog;
  }

  // ---- key status and chain ----

  /** An Android proof carries a chain. */
  predicate HasChain(e: Evidence) {
    e.attestation.Some? && e.platform == "android"
  }

  function WalkOf(env: Env, e: Evidence): ChainWalk
    requires HasChain(e)
  {
    e.attestation.value(ValidatedAt(env, e).0, env.clock)
  }

  /** The chain proves hardware at the validated instant. */
  predicate ChainProves(env: Env, e: Evidence) {
    HasChain(e) && env.attestationRoots > 0 && ProvesHardware(WalkOf(env, e))
  }

  /** iOS carries no chain: a registered leaf records the Secure Enclave. */
  predicate EnclaveRecorded(env: Env, e: Evidence) {
    e.platform == "ios" && InLog(env, e) && e.registry.value.leaf.secureHw == "secureEnclave"
  }

  predicate ChainExpiredSince(env: Env, e: Evidence) {
    HasChain(e) && env.attestationRoots > 0 && WalkOf(env, e).Walked? && WalkOf(env, e).expiredSince
  }

  /** The snapshot lists a revocation of the chain. */
  ghost predicate ListsRevoked(env: Env, e: Evidence) {
    Walks(env, e, ValidatedAt(env, e).0) && Snapshot(env, e) && exists r :: Lists(env, e, WalkOf(env, e).serials, r)
  }

  /** And nothing proves the capture earlier than all of them. */
  ghost predicate RevokedByThen(env: Env, e: Evidence) {
    ListsRevoked(env, e) && !(ProvenAt(env, e, ValidatedAt(env, e).0) && OnlyLater(env, e, WalkOf(env, e).serials, ValidatedAt(env, e).0))
  }

  ghost predicate KeyMeans(env: Env, e: Evidence, asked: int, shown: Label) {
    match shown
    case KeyRevoked => InLog(env, e) && KeyStatusSaid(env, e, asked, 2)
    case RevocationNotChecked => InLog(env, e) && !KeyStatusSaid(env, e, asked, 1) && !KeyStatusSaid(env, e, asked, 2)
    case _ => false
  }

  ghost predicate ChainMeans(env: Env, e: Evidence, shown: Label) {
    match shown
    case AttestationNotEvaluated => HasChain(e) && env.attestationRoots == 0
    case OriginNotAttested => HasChain(e) && env.attestationRoots > 0 && !ChainProves(env, e)
    case AttestationInvalid => HasChain(e) && env.attestationRoots > 0 && !Walks(env, e, ValidatedAt(env, e).0)
    case ChainExpired => ChainExpiredSince(env, e) && e.deviceClock.Some? && forall t :: !ProvenAt(env, e, t)
    case _ => false
  }

  ghost predicate RevocationMeans(env: Env, e: Evidence, shown: Label) {
    match shown
    case AttestationKeyRevoked => RevokedByThen(env, e)
    case RevokedAfterCapture => ListsRevoked(env, e) && !RevokedByThen(env, e)
    case ChainRevocationNotChecked =>
      Walks(env, e, ValidatedAt(env, e).0) && !ListsRevoked(env, e) && !(Snapshot(env, e) && AllValid(env, e, WalkOf(env, e).serials))
    case _ => false
  }

  lemma KeyLabels(env: Env, e: Evidence, asked: int, shown: Label)
    requires AskedAt(env, e, asked)
    ensures shown in KeyStatusLabels(env, e) <==> KeyMeans(env, e, asked, shown)
  {
    hide InLog, RegistryOf, KeyStatusOf, KeyStatusSaid, AskedAt;
    InLogExact(env, e);
    StatusExact(env, e, asked, 1);
    StatusExact(env, e, asked, 2);
    StatusIsOne(env, e);
  }

  lemma StatusIsOne(env: Env, e: Evidence)
    ensures KeyStatusOf(env, e).Some? ==> 0 <= KeyStatusOf(env, e).value <= 2
  {
    hide SigningLogs, TrustedInstant, FindLog;
  }

  lemma ChainShown(env: Env, e: Evidence, shown: Label)
    ensures shown in ChainLabels(env, e) <==> ChainMeans(env, e, shown)
  {
    ChainIsWalk(env, e);
    DeviceClockOnly(env, e);
    hide ValidatedAt, ProvenAt, ChainOf, Walks, ProvesHardware;
  }

  lemma DeviceClockOnly(env: Env, e: Evidence)
    ensures ValidatedAt(env, e).1 == FromDeviceClock <==> e.deviceClock.Some? && forall t :: !ProvenAt(env, e, t)
  {
    if TrustedInstant(env, e).Some? {
      InstantExact(env, e, TrustedInstant(env, e).value);
    } else {
      InstantExact(env, e, 0);
      forall t
        ensures !ProvenAt(env, e, t)
      {
        InstantExact(env, e, t);
      }
    }
    hide TimestampOf, AnchoredAt, ProvenAt;
  }

  lemma ChainIsWalk(env: Env, e: Evidence)
    ensures ChainOf(env, e).Some? <==> HasChain(e)
    ensures ChainProves(env, e) ==> Walks(env, e, ValidatedAt(env, e).0)
    ensures HasChain(e) ==>
              var chain := ChainOf(env, e).value;
              && (chain.proven != "none" <==> ProvesHardware(WalkOf(env, e)))
              && (env.attestationRoots > 0 ==> (chain.evidenceInvalid <==> !Walks(env, e, ValidatedAt(env, e).0)))
              && (chain.expiredSince <==> WalkOf(env, e).Walked? && WalkOf(env, e).expiredSince)
  {
    if HasChain(e) {
      ProvenExact(WalkOf(env, e));
    }
    hide ValidatedAt, Attestation.Rank, LevelName, ProvesHardware;
  }

  lemma RevocationShown(env: Env, e: Evidence, shown: Label)
    ensures shown in RevocationLabels(env, e) <==> RevocationMeans(env, e, shown)
  {
    var at := ValidatedAt(env, e).0;
    WalksExact(env, e);
    ChainRedExact(env, e);
    WalkIs(env, e);
    hide ValidatedAt, ProvenAt, TrustedInstant, ChainHolds, ChainOf, Walks, FrozenOf, AllLater, RevokedAmong, Lists, OnlyLater, Snapshot, AllValid, Unanswered, HasChain;
    if ChainHolds(env, e) {
      FrozenExact(env, e);
      if Snapshot(env, e) {
        SnapshotHasEntries(env, e);
        LaterExact(env, e, WalkOf(env, e).serials, at);
        AnsweredExact(env, e, WalkOf(env, e).serials);
      }
    }
  }

  lemma WalkIs(env: Env, e: Evidence)
    ensures Walks(env, e, ValidatedAt(env, e).0) ==> HasChain(e) && WalkOf(env, e) == e.attestation.value(ValidatedAt(env, e).0, env.clock) && WalkOf(env, e).Walked?
  {
    hide ValidatedAt;
  }

  // ---- the level ----

  /** StrongBox above a TEE and the Secure Enclave, and those above anything else. */
  predicate Outranks(claim: string, shown: string) {
    || (claim == "strongbox" && shown != "strongbox")
    || ((claim == "tee" || claim == "secureEnclave") && shown != "strongbox" && shown != "tee" && shown != "secureEnclave")
  }

  lemma OutranksExact(claim: string, shown: string)
    ensures Level.Above(claim, shown) <==> Outranks(claim, shown)
  {
    assert "strongbox"[0] == 's' && "tee"[0] == 't' && "secureEnclave"[1] == 'e' && "strongbox"[1] == 't';
  }

  /** The level a chain establishes: none, or the weaker of the key's two. */
  function ChainLevel(env: Env, e: Evidence): string {
    if !ChainProves(env, e) then "none" else if InStrongBox(WalkOf(env, e)) then "strongbox" else "tee"
  }

  function Claim(e: Evidence): string {
    if e.platform in {"android", "ios", "web"} && e.secureHw in {"strongbox", "tee", "secureEnclave", "none"} then e.secureHw else "none"
  }

  lemma ClaimExact(e: Evidence)
    ensures ClaimedLevel(e) == Claim(e)
  {
  }

  /** The level shown: the chain's, unless it is revoked by then; or, without a chain, the enclave a log recorded. */
  lemma LevelExact(env: Env, e: Evidence)
    ensures ProvenLevel(env, e) ==
            if RevokedByThen(env, e) then "none" else if EnclaveRecorded(env, e) then "secureEnclave" else ChainLevel(env, e)
  {
    RevokedIs(env, e);
    ChainLevelIs(env, e);
    InLogExact(env, e);
    NotBothPlatforms(env, e);
    hide ChainIsRevoked, RevokedByThen, ChainOf, ChainLevel, InLog, RegistryOf, HasChain;
  }

  lemma RevokedIs(env: Env, e: Evidence)
    ensures ChainIsRevoked(env, e) <==> RevokedByThen(env, e)
  {
    ChainRedExact(env, e);
    WalkIs(env, e);
    hide ChainIsRevoked, ValidatedAt, Walks, Snapshot, Lists, OnlyLater, ProvenAt, HasChain;
  }

  lemma NotBothPlatforms(env: Env, e: Evidence)
    ensures e.platform == "ios" ==> !HasChain(e) && ChainOf(env, e).None?
  {
    assert "ios"[0] != "android"[0];
  }

  lemma ChainLevelIs(env: Env, e: Evidence)
    ensures ChainLevel(env, e) == if ChainOf(env, e).Some? && env.attestationRoots > 0 then ChainOf(env, e).value.proven else "none"
    ensures ChainLevel(env, e) == AttestedLevel(env, e)
    ensures (ChainLevel(env, e) != "none") <==> ChainProves(env, e)
  {
    if HasChain(e) {
      ProvenExact(WalkOf(env, e));
    }
    assert "none"[0] == 'n' && "strongbox"[0] == 's' && "tee"[0] == 't';
    hide ValidatedAt, Attestation.Rank, LevelName;
  }

  ghost predicate LevelMeans(env: Env, e: Evidence, shown: Label) {
    match shown
    case LevelFromRegistry => EnclaveRecorded(env, e)
    case InconsistentClaim =>
      || (Walks(env, e, ValidatedAt(env, e).0) && (Outranks(Claim(e), ChainLevel(env, e)) || (InLog(env, e) && Outranks(e.registry.value.leaf.secureHw, ChainLevel(env, e)))))
      || (e.platform == "ios" && InLog(env, e) && Outranks(Claim(e), e.registry.value.leaf.secureHw))
    case AppNotChecked => Walks(env, e, ValidatedAt(env, e).0) && InLog(env, e) && !AppAnswerable(env, e)
    case AppNotAdmitted => Walks(env, e, ValidatedAt(env, e).0) && InLog(env, e) && AppAnswerable(env, e) && !AppDeclared(env, e, WalkOf(env, e))
    case IntegrityNotProven =>
      && (EnclaveRecorded(env, e) || (ChainProves(env, e) && !RevokedByThen(env, e)))
      && !(DeviceProven(env, e) && e.platform == "android")
    case _ => false
  }

  /** The named log declares apps, and the chain says which signed this one. */
  predicate AppAnswerable(env: Env, e: Evidence) {
    && HasChain(e) && WalkOf(env, e).Walked? && WalkOf(env, e).description.Some? && WalkOf(env, e).description.value.appSigningDigests.Some?
    && e.registry.Some?
    && var log := FindLog(env.logs, e.registry.value.logId);
    && log.Some? && log.value.appSigningDigests.Some? && log.value.appSigningDigests.value != []
  }

  lemma InconsistentExact(env: Env, e: Evidence)
    ensures Inconsistent(env, e) <==> LevelMeans(env, e, InconsistentClaim)
  {
    WalksExact(env, e);
    ChainLevelIs(env, e);
    ClaimExact(e);
    InLogExact(env, e);
    OutranksExact(ClaimedLevel(e), AttestedLevel(env, e));
    if InLog(env, e) {
      OutranksExact(e.registry.value.leaf.secureHw, AttestedLevel(env, e));
      OutranksExact(ClaimedLevel(e), e.registry.value.leaf.secureHw);
    }
    hide ValidatedAt, Walks, ChainHolds, ChainLevel, AttestedLevel, InLog, RegistryOf, Outranks, Level.Above, ClaimedLevel, Claim;
  }

  lemma AppShown(env: Env, e: Evidence, shown: Label)
    ensures shown in AppLabels(env, e) <==> (shown.AppNotChecked? || shown.AppNotAdmitted?) && LevelMeans(env, e, shown)
  {
    WalksExact(env, e);
    WalkIs(env, e);
    InLogExact(env, e);
    WalksAre(env, e, ValidatedAt(env, e).0);
    DeclaredIs(env, e);
    hide ValidatedAt, Walks, ChainHolds, ChainOf, InLog, RegistryOf, AppAdmitted, AppDeclared, DeclaredDigests;
    if ChainHolds(env, e) {
      AppExact(env, e, WalkOf(env, e));
    }
  }

  lemma DeclaredIs(env: Env, e: Evidence)
    ensures DeclaredDigests(env, e) ==
            if e.registry.None? || FindLog(env.logs, e.registry.value.logId).None? then None else FindLog(env.logs, e.registry.value.logId).value.appSigningDigests
  {
  }

  // ---- the whole list ----

  /** What each label of this layer is there for. */
  ghost predicate Means(env: Env, e: Evidence, presentationDiffers: bool, timingDiffers: bool, asked: int, shown: Label) {
    || (shown == PresentationDiffers && presentationDiffers) || (shown == TimingDiffers && timingDiffers)
    || TimeMeans(env, e, shown) || LogMeans(env, e, shown) || KeyMeans(env, e, asked, shown)
    || ChainMeans(env, e, shown) || RevocationMeans(env, e, shown) || LevelMeans(env, e, shown)
  }

  lemma {:induction false} WithoutAbsent(labels: seq<Label>, gone: Label)
    requires gone !in labels
    ensures Without(labels, gone) == labels
  {
    if |labels| > 0 {
      WithoutAbsent(labels[1..], gone);
      assert labels == [labels[0]] + labels[1..];
    }
  }

  lemma EvidenceShown(env: Env, e: Evidence, shown: Label)
    ensures shown in EvidenceLabels(env, e) <==> TimeMeans(env, e, shown) || LogMeans(env, e, shown)
  {
    TimeLabels(env, e, shown);
    LogLabels(env, e, shown);
    hide AnchorLabels, TokenLabels, AgreementLabels, RegistryLabels, IntegrityLabels, TimeMeans, LogMeans;
    var a, b, c := AnchorLabels(env, e), TokenLabels(e.token), AgreementLabels(env, e);
    var d: seq<Label> := if e.deviceClock.None? then [CaptureTimeNotDeclared] else [];
    var f, g := RegistryLabels(env, e), IntegrityLabels(env, e);
    assert a + b + c + d + f + g == (a + b + c) + (d + f + g);
  }

  /** What stands before the level's own labels, where a level from the registry takes the place of the chain's. */
  function FirstLabels(env: Env, e: Evidence, before: seq<Label>): seq<Label> {
    before + KeyStatusLabels(env, e) + ChainLabels(env, e) + if RegistryProves(env, e) then [LevelFromRegistry] else []
  }

  lemma NothingSpliced(env: Env, e: Evidence, before: seq<Label>)
    requires OriginNotAttested !in before
    ensures LevelLabels(env, e, before) ==
            FirstLabels(env, e, before) + RevocationLabels(env, e)
            + (if Inconsistent(env, e) then [InconsistentClaim] else [])
            + AppLabels(env, e)
            + (if ProvenLevel(env, e) != "none" && !IntegrityProven(env, e) then [IntegrityNotProven] else [])
  {
    NotBothPlatforms(env, e);
    NoOriginInStatus(env, e);
    hide KeyStatusLabels, RevocationLabels, AppLabels, Inconsistent, ProvenLevel, IntegrityProven, ChainOf, RegistryOf;
    if RegistryProves(env, e) {
      assert ChainLabels(env, e) == [];
      var first := before + KeyStatusLabels(env, e) + ChainLabels(env, e) + [LevelFromRegistry];
      assert OriginNotAttested !in first;
      WithoutAbsent(first, OriginNotAttested);
    }
  }

  lemma NoOriginInStatus(env: Env, e: Evidence)
    ensures OriginNotAttested !in KeyStatusLabels(env, e)
  {
    hide RegistryOf, KeyStatusOf;
  }

  lemma RegistryProvesExact(env: Env, e: Evidence)
    ensures RegistryProves(env, e) <==> EnclaveRecorded(env, e)
  {
    InLogExact(env, e);
    NotBothPlatforms(env, e);
    hide InLog, RegistryOf, ChainOf, HasChain;
  }

  lemma ProvenShown(env: Env, e: Evidence)
    ensures ProvenLevel(env, e) != "none" && !IntegrityProven(env, e) <==> LevelMeans(env, e, IntegrityNotProven)
  {
    LevelExact(env, e);
    ChainLevelIs(env, e);
    DeviceExact(env, e);
    NoRevokedEnclave(env, e);
    assert "secureEnclave"[0] == 's' && "none"[0] == 'n';
    hide ProvenLevel, RevokedByThen, ChainLevel, ChainProves, InLog, IntegrityOf, DeviceProven;
  }

  lemma NoRevokedEnclave(env: Env, e: Evidence)
    ensures RevokedByThen(env, e) ==> !EnclaveRecorded(env, e)
  {
    NotBothPlatforms(env, e);
    WalkIs(env, e);
    hide Walks, InLog, Snapshot, Lists, OnlyLater, ProvenAt, ValidatedAt;
  }

  /** Beside what was there before, a label is there exactly for what it says. */
  lemma LabelsExact(env: Env, e: Evidence, prior: seq<Label>, presentationDiffers: bool, timingDiffers: bool, asked: int, shown: Label)
    requires AskedAt(env, e, asked) && OriginNotAttested !in prior
    ensures shown in LevelLabels(env, e, prior + EvidenceLabels(env, e) + Marks(presentationDiffers, timingDiffers)) <==>
            shown in prior || Means(env, e, presentationDiffers, timingDiffers, asked, shown)
  {
    var before := prior + EvidenceLabels(env, e) + Marks(presentationDiffers, timingDiffers);
    hide LevelLabels, EvidenceLabels, FirstLabels, Means, AskedAt;
    BeforeShown(env, e, prior, presentationDiffers, timingDiffers, shown);
    BeforeShown(env, e, prior, presentationDiffers, timingDiffers, OriginNotAttested);
    NotAmongEvidence(env, e);
    NothingSpliced(env, e, before);
    AfterShown(env, e, before, asked, shown);
    MeansIs(env, e, presentationDiffers, timingDiffers, asked, shown);
  }

  lemma MeansIs(env: Env, e: Evidence, presentationDiffers: bool, timingDiffers: bool, asked: int, shown: Label)
    ensures Means(env, e, presentationDiffers, timingDiffers, asked, shown) <==>
            || shown in Marks(presentationDiffers, timingDiffers) || TimeMeans(env, e, shown) || LogMeans(env, e, shown)
            || KeyMeans(env, e, asked, shown) || ChainMeans(env, e, shown) || RevocationMeans(env, e, shown) || LevelMeans(env, e, shown)
  {
    hide TimeMeans, LogMeans, KeyMeans, ChainMeans, RevocationMeans, LevelMeans;
  }

  lemma BeforeShown(env: Env, e: Evidence, prior: seq<Label>, presentationDiffers: bool, timingDiffers: bool, shown: Label)
    ensures shown in prior + EvidenceLabels(env, e) + Marks(presentationDiffers, timingDiffers) <==>
            shown in prior || TimeMeans(env, e, shown) || LogMeans(env, e, shown) || shown in Marks(presentationDiffers, timingDiffers)
  {
    EvidenceShown(env, e, shown);
    hide EvidenceLabels, TimeMeans, LogMeans, Marks;
  }

  lemma NotAmongEvidence(env: Env, e: Evidence)
    ensures !TimeMeans(env, e, OriginNotAttested) && !LogMeans(env, e, OriginNotAttested)
    ensures forall p, t :: OriginNotAttested !in Marks(p, t)
  {
  }

  lemma AfterShown(env: Env, e: Evidence, before: seq<Label>, asked: int, shown: Label)
    requires AskedAt(env, e, asked)
    ensures shown in FirstLabels(env, e, before) + RevocationLabels(env, e)
                     + (if Inconsistent(env, e) then [InconsistentClaim] else [])
                     + AppLabels(env, e)
                     + (if ProvenLevel(env, e) != "none" && !IntegrityProven(env, e) then [IntegrityNotProven] else [])
       <==> shown in before || KeyMeans(env, e, asked, shown) || ChainMeans(env, e, shown) || RevocationMeans(env, e, shown) || LevelMeans(env, e, shown)
  {
    hide AskedAt, KeyStatusLabels, ChainLabels, RevocationLabels, AppLabels, Inconsistent, ProvenLevel, IntegrityProven, RegistryProves, LevelMeans, KeyMeans, ChainMeans, RevocationMeans;
    KeyLabels(env, e, asked, shown);
    ChainShown(env, e, shown);
    RevocationShown(env, e, shown);
    InconsistentExact(env, e);
    AppShown(env, e, shown);
    ProvenShown(env, e);
    RegistryProvesExact(env, e);
    LevelIs(env, e, shown);
  }

  lemma LevelIs(env: Env, e: Evidence, shown: Label)
    ensures LevelMeans(env, e, LevelFromRegistry) <==> EnclaveRecorded(env, e)
    ensures LevelMeans(env, e, shown) ==>
              shown.LevelFromRegistry? || shown.InconsistentClaim? || shown.AppNotChecked? || shown.AppNotAdmitted? || shown.IntegrityNotProven?
  {
  }
}

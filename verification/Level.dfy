/**
 The proof level of an authentic file (tools/src/verify.ts): the evidence outcomes
 computed in `judge`, the level they prove, and the ceiling.
 */
module Level {
  import opened ByteStrings
  import opened Primitives
  import opened Registry
  import opened Attestation

  /** The labels this layer pushes or asks about. */
  datatype Label =
    | NoTrustedTime | TimestampInvalid | TrustedTimeNotEvaluated
    | NotAnchoredLabel | AnchorInvalid | AnchoringNotVerified
    | CaptureTimeNotDeclared
    | KeyNotInLog | LogNotTrusted | RegistryInvalid | RegisteredAfterCapture | RegisteredAfterTrustedTime
    | IntegrityUnevaluated | IntegrityInvalid | IntegrityVerdict(verdict: string) | IntegrityNotProven
    | KeyRevoked | RevocationNotChecked
    | AttestationNotEvaluated | OriginNotAttested | AttestationInvalid | ChainExpired
    | LevelFromRegistry
    | AttestationKeyRevoked | RevokedAfterCapture | ChainRevocationNotChecked
    | InconsistentClaim | AppNotChecked | AppNotAdmitted
    | PresentationDiffers | TimingDiffers | OtherLabel(text: string)

  // ---- the evidence ----

  /** `Buffer.from` and the token's own validation, already done: its genTime and its signer's validity. */
  datatype Token = Absent | NoRoots | Invalid | Valid(genTime: int, from: int, to: int)

  /** `evaluatedAt` is none when not a safe integer; `printed` is the attachment's canonical JSON without its signature. */
  datatype IntegrityAttachment = IntegrityAttachment(source: string, verdict: string, evaluatedAt: Option<int>, printed: Buffer, signature: Buffer)

  datatype IntegrityOutcome = Attested(source: string, verdict: string) | NotAttested(trusted: bool, evaluated: bool)

  /** What surrounds a proof: hash, signatures, encodings, the pinned logs and roots, and the verifier's clock. */
  datatype Env = Env(
    h: Hash, enc: Encodings, verifies: Signatures, normal: string -> string,
    logs: seq<TrustedLog>, attestationRoots: nat, clock: int)

  /** A proof's device claim and its attachments, and the two inputs that answer online questions. */
  datatype Evidence = Evidence(
    platform: string, secureHw: string, keyId: Buffer, sigPub: Buffer, coreHash: Buffer, deviceClock: Option<int>,
    token: Token, anchor: Option<AnchorAttachment>, registry: Option<RegistryAttachment>, integrity: Option<IntegrityAttachment>,
    attestation: Option<(int, int) -> ChainWalk>, status: Option<StatusAttachment>,
    chainRead: Option<ChainRead>, keyStatus: Option<KeyStatusStatement>)

  // ---- the outcomes `judge` reduces the evidence to ----

  datatype RegistryVerdict = NoRegistry | InRegistry(secureHw: string, beforeCapture: bool, appSigningDigests: Option<seq<string>>)

  datatype TimestampVerdict = NoTimestamp | Stamped(genTime: int)

  function NamedLogs(logs: seq<TrustedLog>, logId: string): seq<TrustedLog> {
    if |logs| == 0 then []
    else (if logs[0].logId == logId then [logs[0]] else []) + NamedLogs(logs[1..], logId)
  }

  /** The logs under the name the registry attachment gives, or every log when none is. */
  function SigningLogs(env: Env, e: Evidence): seq<TrustedLog> {
    var named := if e.registry.Some? then NamedLogs(env.logs, e.registry.value.logId) else [];
    if |named| > 0 then named else env.logs
  }

  function AnchorOf(env: Env, e: Evidence): AnchorOutcome {
    if e.anchor.None? then NotAnchored else VerifyAnchor(env.h, e.anchor.value, e.coreHash, e.chainRead)
  }

  /** The block's time, when an anchor gives one. */
  function AnchoredAt(env: Env, e: Evidence): Option<int> {
    var anchor := AnchorOf(env, e);
    if anchor.Anchored? then anchor.blockTime else None
  }

  /** A token must predate the block, and its signer must still have been valid then. */
  predicate TokenAgrees(token: Token, block: Option<int>)
    requires token.Valid?
  {
    block.Some? ==> token.genTime <= block.value && token.from <= block.value <= token.to
  }

  function TimestampOf(env: Env, e: Evidence): TimestampVerdict {
    if e.token.Valid? && TokenAgrees(e.token, AnchoredAt(env, e)) then Stamped(e.token.genTime) else NoTimestamp
  }

  function RegistryOf(env: Env, e: Evidence): RegistryOutcome {
    if e.registry.None? then NotRegistered(false)
    else VerifyRegistry(env.h, env.enc, env.verifies, e.registry.value, e.keyId, e.sigPub, env.logs)
  }

  function DeclaredDigests(env: Env, e: Evidence): Option<seq<string>> {
    if e.registry.None? then None
    else
      var log := FindLog(env.logs, e.registry.value.logId);
      if log.None? then None else log.value.appSigningDigests
  }

  /** The head is no later than the declared capture, nor than a valid token. */
  predicate BeforeCapture(head: int, deviceClock: Option<int>, timestamp: TimestampVerdict) {
    deviceClock.Some? && head <= deviceClock.value && (timestamp.Stamped? ==> head <= timestamp.genTime)
  }

  function VerifyIntegrity(verifies: Signatures, a: IntegrityAttachment, coreHash: Buffer, logs: seq<TrustedLog>): IntegrityOutcome {
    if a.source !in ["playIntegrity", "appAttest", "none"] then NotAttested(false, false)
    else if !SignedBySome(verifies, logs, Some(IntegrityMessage(coreHash, a.printed)), a.signature) then NotAttested(false, true)
    else if a.verdict !in ["hardware", "basic", "unevaluated", "failed"] then NotAttested(true, true)
    else if a.evaluatedAt.None? then NotAttested(true, true)
    else Attested(a.source, a.verdict)
  }

  function IntegrityOf(env: Env, e: Evidence): IntegrityOutcome {
    if e.integrity.None? then NotAttested(false, false)
    else VerifyIntegrity(env.verifies, e.integrity.value, e.coreHash, SigningLogs(env, e))
  }

  /** Only Play Integrity proves a device's integrity, and only an Android one's. */
  predicate IntegrityProven(env: Env, e: Evidence) {
    IntegrityOf(env, e) == Attested("playIntegrity", "hardware") && e.platform == "android"
  }

  // ---- the instant ----

  datatype Source = FromTimestamp | FromAnchor | FromDeviceClock | FromVerifierClock

  predicate Trusted(source: Source) {
    source == FromTimestamp || source == FromAnchor
  }

  function ValidatedAt(env: Env, e: Evidence): (int, Source) {
    var stamped, anchored := TimestampOf(env, e), AnchoredAt(env, e);
    if stamped.Stamped? then (stamped.genTime, FromTimestamp)
    else if anchored.Some? then (anchored.value, FromAnchor)
    else if e.deviceClock.Some? then (e.deviceClock.value, FromDeviceClock)
    else (env.clock, FromVerifierClock)
  }

  /** The instant, when a source the device does not control gives it. */
  function TrustedInstant(env: Env, e: Evidence): Option<int> {
    var (instant, source) := ValidatedAt(env, e);
    if Trusted(source) then Some(instant) else None
  }

  // ---- what the evidence proves at the instant ----

  /** The key's signed status: asked about the trusted instant, or about now. */
  function KeyStatusOf(env: Env, e: Evidence): Option<int> {
    if e.keyStatus.None? then None
    else
      var at := TrustedInstant(env, e);
      VerifyKeyStatus(env.verifies, e.keyStatus.value, e.keyId, if at.Some? then at.value else env.clock, SigningLogs(env, e))
  }

  function ChainOf(env: Env, e: Evidence): Option<ChainOutcome> {
    if e.attestation.None? || e.platform != "android" then None
    else Some(ValidateChain(e.attestation.value(ValidatedAt(env, e).0, env.clock)))
  }

  predicate ChainHolds(env: Env, e: Evidence) {
    ChainOf(env, e).Some? && env.attestationRoots > 0 && !ChainOf(env, e).value.evidenceInvalid
  }

  function FrozenOf(env: Env, e: Evidence): FrozenStatus
    requires ChainHolds(env, e)
  {
    if e.status.None? then Unchecked
    else Frozen(env.verifies, env.normal, e.coreHash, e.status.value, SigningLogs(env, e), ChainOf(env, e).value.serials)
  }

  /** Every revocation is dated after the trusted instant, and none reaches back. */
  predicate AllLater(revoked: seq<Revocation>, at: Option<int>) {
    at.Some? && forall i | 0 <= i < |revoked| :: !revoked[i].retroactive && revoked[i].revokedAt.Some? && at.value < revoked[i].revokedAt.value
  }

  function ClaimedLevel(e: Evidence): string {
    if e.platform in ["android", "ios", "web"] && e.secureHw in ["strongbox", "tee", "secureEnclave", "none"] then e.secureHw else "none"
  }

  predicate Above(x: string, y: string) {
    Rank(x) > Rank(y)
  }

  /** The level a chain that holds establishes, before revocation. */
  function AttestedLevel(env: Env, e: Evidence): string {
    if ChainHolds(env, e) then ChainOf(env, e).value.proven else "none"
  }

  predicate Inconsistent(env: Env, e: Evidence) {
    var registry := RegistryOf(env, e);
    || (ChainHolds(env, e) && Above(ClaimedLevel(e), AttestedLevel(env, e)))
    || (ChainHolds(env, e) && registry.Registered? && Above(registry.secureHw, AttestedLevel(env, e)))
    || (e.platform == "ios" && registry.Registered? && Above(ClaimedLevel(e), registry.secureHw))
  }

  /** The app that made the key is one the log declares. */
  predicate AppAdmitted(declared: Option<seq<string>>, carried: Option<seq<string>>) {
    declared.Some? && carried.Some? && exists i | 0 <= i < |carried.value| :: carried.value[i] in declared.value
  }

  // ---- the ceiling, said without labels ----

  datatype Ceiling = Red | Amber | Green

  datatype LevelVerdict = LevelVerdict(claimed: string, proven: string, ceiling: Ceiling, instant: int, source: Source)

  predicate KeyIsRevoked(env: Env, e: Evidence) {
    RegistryOf(env, e).Registered? && KeyStatusOf(env, e) == Some(2)
  }

  /** A certificate of a chain that holds is revoked, and no trusted instant places the capture before that. */
  predicate ChainIsRevoked(env: Env, e: Evidence) {
    && ChainHolds(env, e)
    && var frozen := FrozenOf(env, e);
    && frozen.Checked? && frozen.revoked != [] && !AllLater(frozen.revoked, TrustedInstant(env, e))
  }

  /** The snapshot clears the chain: all revocations it lists are later, or it lists none and answers for every certificate. */
  predicate SnapshotClears(env: Env, e: Evidence)
    requires ChainHolds(env, e)
  {
    var frozen := FrozenOf(env, e);
    && frozen.Checked?
    && if frozen.revoked == [] then !frozen.incomplete else AllLater(frozen.revoked, TrustedInstant(env, e))
  }

  /** Everything a green ceiling rests on. */
  predicate EarnsGreen(env: Env, e: Evidence, presentationDiffers: bool, timingDiffers: bool) {
    && e.platform == "android"
    && TrustedInstant(env, e).Some?
    && ChainHolds(env, e) && AttestedLevel(env, e) != "none"
    && RegistryOf(env, e).Registered? && BeforeCapture(RegistryOf(env, e).headTimestamp, e.deviceClock, TimestampOf(env, e))
    && KeyStatusOf(env, e) == Some(1)
    && SnapshotClears(env, e)
    && !Above(ClaimedLevel(e), AttestedLevel(env, e)) && !Above(RegistryOf(env, e).secureHw, AttestedLevel(env, e))
    && AppAdmitted(DeclaredDigests(env, e), ChainOf(env, e).value.appSigningDigests)
    && IntegrityOf(env, e) == Attested("playIntegrity", "hardware")
    && !presentationDiffers && !timingDiffers
  }

  // ---- the labels ----

  function AnchorLabels(env: Env, e: Evidence): seq<Label> {
    if e.anchor.None? then [NotAnchoredLabel]
    else
      var outcome := AnchorOf(env, e);
      if outcome.NotAnchored? then [NotAnchoredLabel, AnchorInvalid]
      else if !outcome.onChain then [AnchoringNotVerified] else []
  }

  function TokenLabels(token: Token): seq<Label> {
    match token
    case Absent => [NoTrustedTime]
    case NoRoots => [TrustedTimeNotEvaluated]
    case Invalid => [NoTrustedTime, TimestampInvalid]
    case Valid(_, _, _) => []
  }

  function AgreementLabels(env: Env, e: Evidence): seq<Label> {
    if e.token.Valid? && !TokenAgrees(e.token, AnchoredAt(env, e)) then [NoTrustedTime, TimestampInvalid] else []
  }

  function RegistryLabels(env: Env, e: Evidence): seq<Label> {
    if e.registry.None? then [KeyNotInLog]
    else
      var outcome := RegistryOf(env, e);
      if outcome.NotRegistered? then
        if !outcome.trusted then [LogNotTrusted] else [KeyNotInLog, RegistryInvalid]
      else
        var head, timestamp := outcome.headTimestamp, TimestampOf(env, e);
        (if e.deviceClock.Some? && head > e.deviceClock.value then [RegisteredAfterCapture] else [])
        + (if timestamp.Stamped? && head > timestamp.genTime then [RegisteredAfterTrustedTime] else [])
  }

  function IntegrityLabels(env: Env, e: Evidence): seq<Label> {
    var outcome := IntegrityOf(env, e);
    if outcome.Attested? then [IntegrityVerdict(outcome.verdict)]
    else if e.integrity.Some? && outcome.trusted && outcome.evaluated then [IntegrityUnevaluated, IntegrityInvalid]
    else [IntegrityUnevaluated]
  }

  /** The labels already there when the level is asked for. */
  function EvidenceLabels(env: Env, e: Evidence): seq<Label> {
    AnchorLabels(env, e) + TokenLabels(e.token) + AgreementLabels(env, e)
    + (if e.deviceClock.None? then [CaptureTimeNotDeclared] else [])
    + RegistryLabels(env, e) + IntegrityLabels(env, e)
  }

  function KeyStatusLabels(env: Env, e: Evidence): seq<Label> {
    if !RegistryOf(env, e).Registered? then []
    else
      var status := KeyStatusOf(env, e);
      if status == Some(2) then [KeyRevoked]
      else if status.None? || status == Some(0) then [RevocationNotChecked] else []
  }

  function ChainLabels(env: Env, e: Evidence): seq<Label> {
    var chain := ChainOf(env, e);
    if chain.None? then []
    else if env.attestationRoots == 0 then [AttestationNotEvaluated]
    else
      (if chain.value.proven != "none" then [] else if chain.value.evidenceInvalid then [OriginNotAttested, AttestationInvalid] else [OriginNotAttested])
      + (if chain.value.expiredSince && ValidatedAt(env, e).1 == FromDeviceClock then [ChainExpired] else [])
  }

  /** iOS carries no chain: the level is the registry's word. */
  predicate RegistryProves(env: Env, e: Evidence) {
    ChainOf(env, e).None? && e.platform == "ios" && RegistryOf(env, e).Registered? && RegistryOf(env, e).secureHw == "secureEnclave"
  }

  /** Less the first `gone`, if any. */
  function Without(labels: seq<Label>, gone: Label): seq<Label> {
    if |labels| == 0 then [] else if labels[0] == gone then labels[1..] else [labels[0]] + Without(labels[1..], gone)
  }

  function RevocationLabels(env: Env, e: Evidence): seq<Label> {
    if !ChainHolds(env, e) then []
    else
      var frozen := FrozenOf(env, e);
      if frozen.Checked? && frozen.revoked != [] then
        if AllLater(frozen.revoked, TrustedInstant(env, e)) then [RevokedAfterCapture] else [AttestationKeyRevoked]
      else if frozen.Unchecked? || frozen.incomplete then [ChainRevocationNotChecked] else []
  }

  function AppLabels(env: Env, e: Evidence): seq<Label> {
    if !ChainHolds(env, e) || !RegistryOf(env, e).Registered? then []
    else
      var declared, carried := DeclaredDigests(env, e), ChainOf(env, e).value.appSigningDigests;
      if declared.None? || declared.value == [] || carried.None? then [AppNotChecked]
      else if !AppAdmitted(declared, carried) then [AppNotAdmitted] else []
  }

  function ProvenLevel(env: Env, e: Evidence): string {
    if ChainIsRevoked(env, e) then "none"
    else if RegistryProves(env, e) then "secureEnclave"
    else if ChainOf(env, e).Some? && env.attestationRoots > 0 then ChainOf(env, e).value.proven
    else "none"
  }

  /** What level pushes before the splice, and after it. */
  function LevelLabels(env: Env, e: Evidence, before: seq<Label>): seq<Label> {
    var first := before + KeyStatusLabels(env, e) + ChainLabels(env, e);
    (if RegistryProves(env, e) then Without(first + [LevelFromRegistry], OriginNotAttested) else first)
    + RevocationLabels(env, e)
    + (if Inconsistent(env, e) then [InconsistentClaim] else [])
    + AppLabels(env, e)
    + (if ProvenLevel(env, e) != "none" && !IntegrityProven(env, e) then [IntegrityNotProven] else [])
  }

  predicate IsAmberCause(shown: Label) {
    || shown.InconsistentClaim? || shown.ChainRevocationNotChecked? || shown.RevocationNotChecked?
    || shown.ChainExpired? || shown.RegistryInvalid?
    || shown.AppNotChecked? || shown.AppNotAdmitted? || shown == IntegrityVerdict("failed")
    || shown.IntegrityNotProven? || shown.PresentationDiffers? || shown.TimingDiffers?
  }

  predicate Clean(labels: seq<Label>) {
    forall i | 0 <= i < |labels| :: !IsAmberCause(labels[i])
  }

  function CeilingOf(env: Env, e: Evidence, labels: seq<Label>): Ceiling {
    var registry := RegistryOf(env, e);
    var green :=
      && ProvenLevel(env, e) != "none"
      && registry.Registered? && BeforeCapture(registry.headTimestamp, e.deviceClock, TimestampOf(env, e))
      && TrustedInstant(env, e).Some?
      && Clean(labels);
    if AttestationKeyRevoked in labels || KeyRevoked in labels then Red else if green then Green else Amber
  }

  // ---- the ceiling is exactly what the evidence earns ----

  lemma CleanParts(a: seq<Label>, b: seq<Label>)
    ensures Clean(a + b) <==> Clean(a) && Clean(b)
  {
    assert forall i | 0 <= i < |a| :: (a + b)[i] == a[i];
    assert forall i | 0 <= i < |b| :: (a + b)[|a| + i] == b[i];
  }

  /** A label that is neither amber nor red may go. */
  lemma {:induction false} CleanWithout(labels: seq<Label>, gone: Label)
    requires !IsAmberCause(gone)
    ensures Clean(Without(labels, gone)) <==> Clean(labels)
    ensures forall shown | shown != gone :: shown in Without(labels, gone) <==> shown in labels
  {
    if |labels| > 0 {
      assert labels == [labels[0]] + labels[1..];
      CleanParts([labels[0]], labels[1..]);
      if labels[0] != gone {
        CleanWithout(labels[1..], gone);
        CleanParts([labels[0]], Without(labels[1..], gone));
      }
    }
  }

  function Marks(presentationDiffers: bool, timingDiffers: bool): seq<Label> {
    (if presentationDiffers then [PresentationDiffers] else []) + (if timingDiffers then [TimingDiffers] else [])
  }

  predicate NoRed(labels: seq<Label>) {
    KeyRevoked !in labels && AttestationKeyRevoked !in labels
  }

  lemma InnocentLabels(env: Env, e: Evidence)
    ensures Clean(AnchorLabels(env, e)) && NoRed(AnchorLabels(env, e))
    ensures Clean(TokenLabels(e.token)) && NoRed(TokenLabels(e.token))
    ensures Clean(AgreementLabels(env, e)) && NoRed(AgreementLabels(env, e))
  {
    hide AnchorOf, AnchoredAt, TokenAgrees;
  }

  lemma RegistryClean(env: Env, e: Evidence)
    ensures Clean(RegistryLabels(env, e)) <==> !(e.registry.Some? && RegistryOf(env, e).NotRegistered? && RegistryOf(env, e).trusted)
    ensures NoRed(RegistryLabels(env, e))
  {
    hide RegistryOf, TimestampOf;
    var labels := RegistryLabels(env, e);
    if e.registry.Some? && RegistryOf(env, e).NotRegistered? && RegistryOf(env, e).trusted {
      assert labels[1] == RegistryInvalid;
    }
  }

  lemma IntegrityClean(env: Env, e: Evidence)
    ensures Clean(IntegrityLabels(env, e)) <==> !(IntegrityOf(env, e).Attested? && IntegrityOf(env, e).verdict == "failed")
    ensures NoRed(IntegrityLabels(env, e))
  {
    hide IntegrityOf;
    var labels := IntegrityLabels(env, e);
    if IntegrityOf(env, e).Attested? {
      assert labels[0] == IntegrityVerdict(IntegrityOf(env, e).verdict);
    }
  }

  lemma EvidenceClean(env: Env, e: Evidence)
    ensures Clean(EvidenceLabels(env, e)) <==>
            !(e.registry.Some? && RegistryOf(env, e).NotRegistered? && RegistryOf(env, e).trusted)
            && !(IntegrityOf(env, e).Attested? && IntegrityOf(env, e).verdict == "failed")
    ensures NoRed(EvidenceLabels(env, e))
  {
    hide RegistryOf, IntegrityOf, AnchorLabels, TokenLabels, AgreementLabels, RegistryLabels, IntegrityLabels;
    InnocentLabels(env, e);
    RegistryClean(env, e);
    IntegrityClean(env, e);
    var a, b, c := AnchorLabels(env, e), TokenLabels(e.token), AgreementLabels(env, e);
    var d: seq<Label> := if e.deviceClock.None? then [CaptureTimeNotDeclared] else [];
    var f, g := RegistryLabels(env, e), IntegrityLabels(env, e);
    CleanParts(a + b + c + d + f, g);
    CleanParts(a + b + c + d, f);
    CleanParts(a + b + c, d);
    CleanParts(a + b, c);
    CleanParts(a, b);
  }

  lemma ChainAndAppLabels(env: Env, e: Evidence)
    ensures NoRed(ChainLabels(env, e)) && NoRed(AppLabels(env, e))
  {
    hide ChainOf, ChainHolds, RegistryOf, AppAdmitted, DeclaredDigests, ValidatedAt;
  }

  lemma LevelClean(env: Env, e: Evidence, before: seq<Label>)
    ensures Clean(LevelLabels(env, e, before)) <==>
            && Clean(before) && Clean(KeyStatusLabels(env, e)) && Clean(ChainLabels(env, e)) && Clean(RevocationLabels(env, e))
            && !Inconsistent(env, e) && Clean(AppLabels(env, e))
            && (ProvenLevel(env, e) == "none" || IntegrityProven(env, e))
    ensures forall shown | shown == KeyRevoked || shown == AttestationKeyRevoked ::
              shown in LevelLabels(env, e, before) <==> shown in before || shown in KeyStatusLabels(env, e) || shown in RevocationLabels(env, e)
  {
    hide KeyStatusLabels, RevocationLabels, AppLabels, ChainLabels, Inconsistent, ProvenLevel, IntegrityProven, RegistryProves, ChainOf;
    ChainAndAppLabels(env, e);
    var first := before + KeyStatusLabels(env, e) + ChainLabels(env, e);
    CleanParts(before + KeyStatusLabels(env, e), ChainLabels(env, e));
    CleanParts(before, KeyStatusLabels(env, e));
    CleanParts(first, [LevelFromRegistry]);
    CleanWithout(first + [LevelFromRegistry], OriginNotAttested);
    var second := if RegistryProves(env, e) then Without(first + [LevelFromRegistry], OriginNotAttested) else first;
    assert Clean(second) <==> Clean(first);
    var r := RevocationLabels(env, e);
    var i: seq<Label> := if Inconsistent(env, e) then [InconsistentClaim] else [];
    var a := AppLabels(env, e);
    var p: seq<Label> := if ProvenLevel(env, e) != "none" && !IntegrityProven(env, e) then [IntegrityNotProven] else [];
    CleanParts(second + r + i + a, p);
    CleanParts(second + r + i, a);
    CleanParts(second + r, i);
    CleanParts(second, r);
  }

  lemma KeyStatusClean(env: Env, e: Evidence)
    ensures Clean(KeyStatusLabels(env, e)) <==> !(RegistryOf(env, e).Registered? && KeyStatusOf(env, e) != Some(1) && KeyStatusOf(env, e) != Some(2))
    ensures KeyRevoked in KeyStatusLabels(env, e) <==> KeyIsRevoked(env, e)
    ensures AttestationKeyRevoked !in KeyStatusLabels(env, e)
  {
    hide RegistryOf, SigningLogs, TrustedInstant;
    var labels := KeyStatusLabels(env, e);
    if labels != [] {
      assert labels[0] == KeyRevoked || labels[0] == RevocationNotChecked;
    }
  }

  lemma ChainClean(env: Env, e: Evidence)
    ensures TrustedInstant(env, e).Some? ==> Clean(ChainLabels(env, e))
  {
    hide ChainOf, TimestampOf, AnchoredAt;
  }

  lemma RevocationClean(env: Env, e: Evidence)
    ensures Clean(RevocationLabels(env, e)) <==> ChainHolds(env, e) ==> SnapshotClears(env, e) || ChainIsRevoked(env, e)
    ensures AttestationKeyRevoked in RevocationLabels(env, e) <==> ChainIsRevoked(env, e)
    ensures KeyRevoked !in RevocationLabels(env, e)
  {
    hide ChainHolds, FrozenOf, TrustedInstant, AllLater;
    var labels := RevocationLabels(env, e);
    if labels != [] {
      assert labels[0] == RevokedAfterCapture || labels[0] == AttestationKeyRevoked || labels[0] == ChainRevocationNotChecked;
    }
  }

  lemma AppClean(env: Env, e: Evidence)
    ensures Clean(AppLabels(env, e)) <==>
            ChainHolds(env, e) && RegistryOf(env, e).Registered? ==> AppAdmitted(DeclaredDigests(env, e), ChainOf(env, e).value.appSigningDigests)
  {
    hide RegistryOf, DeclaredDigests, ChainOf;
    var labels := AppLabels(env, e);
    if labels != [] {
      assert labels[0] == AppNotChecked || labels[0] == AppNotAdmitted;
    }
  }

  /** A level is proven by a chain that holds and is not revoked, or on iOS by the registry. */
  lemma ProvenIs(env: Env, e: Evidence)
    ensures ProvenLevel(env, e) != "none" <==>
            (ChainHolds(env, e) && AttestedLevel(env, e) != "none" && !ChainIsRevoked(env, e)) || RegistryProves(env, e)
    ensures RegistryProves(env, e) ==> e.platform == "ios" && !ChainHolds(env, e)
    ensures ChainHolds(env, e) ==> e.platform == "android"
  {
    hide ValidateChain, FrozenOf, TrustedInstant, AllLater, RegistryOf, ValidatedAt, Frozen;
    assert "secureEnclave"[0] != "none"[0];
    assert "ios"[0] != "android"[0];
    if ChainOf(env, e).Some? {
      ProvenExact(e.attestation.value(ValidatedAt(env, e).0, env.clock));
    }
  }

  /**
   The ceiling says exactly what the evidence earns. Green: every condition of
   `EarnsGreen`, on Android alone. Red: a key or a chain revoked. `prior` are the
   labels of earlier checks.
   */
  lemma CeilingExact(env: Env, e: Evidence, prior: seq<Label>, presentationDiffers: bool, timingDiffers: bool)
    requires Clean(prior) && NoRed(prior)
    ensures var labels := LevelLabels(env, e, prior + EvidenceLabels(env, e) + Marks(presentationDiffers, timingDiffers));
            && (CeilingOf(env, e, labels) == Red <==> KeyIsRevoked(env, e) || ChainIsRevoked(env, e))
            && (CeilingOf(env, e, labels) == Green <==> EarnsGreen(env, e, presentationDiffers, timingDiffers))
  {
    hide EvidenceLabels, LevelLabels, RegistryOf, IntegrityOf, KeyStatusOf, TrustedInstant, ChainHolds, ChainOf, FrozenOf, TimestampOf, AttestedLevel,
         ProvenLevel, RegistryProves, KeyStatusLabels, ChainLabels, RevocationLabels, AppLabels, AppAdmitted, DeclaredDigests, SnapshotClears, ChainIsRevoked, Rank, ClaimedLevel;
    var marks := Marks(presentationDiffers, timingDiffers);
    var before := prior + EvidenceLabels(env, e) + marks;
    MarksClean(presentationDiffers, timingDiffers);
    CleanParts(prior + EvidenceLabels(env, e), marks);
    CleanParts(prior, EvidenceLabels(env, e));
    EvidenceClean(env, e);
    LevelClean(env, e, before);
    KeyStatusClean(env, e);
    ChainClean(env, e);
    RevocationClean(env, e);
    AppClean(env, e);
    ProvenIs(env, e);
    RegisteredMeans(env, e);
    RevokedIsNotCleared(env, e);
    assert "ios"[0] != "android"[0] && "hardware"[0] != "failed"[0];
  }

  lemma MarksClean(presentationDiffers: bool, timingDiffers: bool)
    ensures Clean(Marks(presentationDiffers, timingDiffers)) <==> !presentationDiffers && !timingDiffers
    ensures NoRed(Marks(presentationDiffers, timingDiffers))
  {
    var labels := Marks(presentationDiffers, timingDiffers);
    if labels != [] {
      assert IsAmberCause(labels[0]);
    }
  }

  lemma RegisteredMeans(env: Env, e: Evidence)
    ensures RegistryOf(env, e).Registered? ==> e.registry.Some?
  {
  }

  lemma RevokedIsNotCleared(env: Env, e: Evidence)
    ensures ChainHolds(env, e) ==> !(SnapshotClears(env, e) && ChainIsRevoked(env, e))
  {
    hide ChainHolds, FrozenOf, TrustedInstant, AllLater;
  }
}

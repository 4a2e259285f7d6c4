/** What a green ceiling rests on, down to the signatures, and what removing evidence can do to it. */
module GreenCeiling {
  import opened ByteStrings
  import opened Primitives
  import opened Merkle
  import opened Registry
  import opened Attestation
  import opened Level

  /** A token's genTime or an on-chain anchor's block gave the instant, and the two agree where both are there. */
  predicate InstantBacked(env: Env, e: Evidence, at: int) {
    var anchor := AnchorOf(env, e);
    || (e.token.Valid? && e.token.genTime == at && (anchor.Anchored? && anchor.blockTime.Some? ==> at <= anchor.blockTime.value && e.token.from <= anchor.blockTime.value <= e.token.to))
    || (anchor.Anchored? && anchor.onChain && anchor.blockTime == Some(at))
  }

  lemma TrustedIsBacked(env: Env, e: Evidence)
    requires TrustedInstant(env, e).Some?
    ensures InstantBacked(env, e, TrustedInstant(env, e).value) && TrustedInstant(env, e).value == ValidatedAt(env, e).0
  {
    hide Digests, Included, LeafHash;
  }

  /** A log the attachment names, or any pinned log when it names none, signed that the key was valid at this instant. */
  predicate KeyVouched(env: Env, e: Evidence, at: int) {
    && e.keyStatus.Some?
    && var s := e.keyStatus.value;
    && s.at == at && s.status == 1
    && var log := FindLog(SigningLogs(env, e), s.logId);
    && log.Some? && log.value.key.Some?
    && var message := KeyStatusMessage(e.keyId, at, s.treeSize, 1);
    && message.Some? && env.verifies(log.value.key.value, message.value, s.signature)
  }

  lemma VouchedWhenOne(env: Env, e: Evidence)
    requires TrustedInstant(env, e).Some? && KeyStatusOf(env, e) == Some(1)
    ensures KeyVouched(env, e, TrustedInstant(env, e).value)
  {
    hide TrustedInstant, SigningLogs;
  }

  /** A signed snapshot, and every certificate of the chain it calls revoked was so only after the instant, for a reason that does not reach back. */
  ghost predicate SnapshotIsLater(env: Env, e: Evidence, at: int, serials: seq<string>) {
    && e.status.Some?
    && SnapshotSigned(env.verifies, e.coreHash, e.status.value, SigningLogs(env, e))
    && forall i, r | 0 <= i < |serials| && StatusOf(env.normal, e.status.value.entries.value, serials[i]) == Some(Revoked(r)) ::
         !r.retroactive && r.revokedAt.Some? && at < r.revokedAt.value
  }

  lemma ClearedIsLater(env: Env, e: Evidence)
    requires ChainHolds(env, e) && SnapshotClears(env, e) && TrustedInstant(env, e).Some?
    ensures SnapshotIsLater(env, e, TrustedInstant(env, e).value, ChainOf(env, e).value.serials)
  {
    hide ChainOf, TrustedInstant, SigningLogs;
    assert ChainOf(env, e).Some? && e.status.Some? && SnapshotSigned(env.verifies, e.coreHash, e.status.value, SigningLogs(env, e));
    hide ChainHolds;
    var serials, at := ChainOf(env, e).value.serials, TrustedInstant(env, e).value;
    var entries := e.status.value.entries.value;
    var revoked := RevokedAmong(env.normal, entries, serials);
    forall i, r | 0 <= i < |serials| && StatusOf(env.normal, entries, serials[i]) == Some(Revoked(r))
      ensures !r.retroactive && r.revokedAt.Some? && at < r.revokedAt.value
    {
      RevokedExact(env.normal, entries, serials, r);
      var k :| 0 <= k < |revoked| && revoked[k] == r;
    }
  }

  /**
   Green rests on an Android proof; a chain that proves hardware at the validated
   instant; an instant from a token or an on-chain anchor; a key whose tree head is no
   later than the device clock and any valid token; a log's signature that the key was
   valid at the instant; a signed snapshot with nothing revoked by then; and a hardware
   verdict of Play Integrity signed by the log.
   */
  lemma GreenRests(env: Env, e: Evidence, presentationDiffers: bool, timingDiffers: bool)
    requires EarnsGreen(env, e, presentationDiffers, timingDiffers)
    ensures e.platform == "android" && e.attestation.Some?
    ensures var at := ValidatedAt(env, e).0;
            && InstantBacked(env, e, at)
            && ProvesHardware(e.attestation.value(at, env.clock))
            && KeyVouched(env, e, at)
            && SnapshotIsLater(env, e, at, ChainOf(env, e).value.serials)
    ensures var registry := RegistryOf(env, e);
            && registry.Registered? && e.deviceClock.Some? && registry.headTimestamp <= e.deviceClock.value
            && (TimestampOf(env, e).Stamped? ==> registry.headTimestamp <= TimestampOf(env, e).genTime)
    ensures e.integrity.Some? && e.integrity.value.source == "playIntegrity" && e.integrity.value.verdict == "hardware"
            && SignedBySome(env.verifies, SigningLogs(env, e), Some(IntegrityMessage(e.coreHash, e.integrity.value.printed)), e.integrity.value.signature)
  {
    hide InstantBacked, KeyVouched, SnapshotIsLater, RegistryOf, TimestampOf, SigningLogs, SnapshotClears, KeyStatusOf, TrustedInstant, ValidateChain, ValidatedAt, FrozenOf;
    TrustedIsBacked(env, e);
    VouchedWhenOne(env, e);
    ClearedIsLater(env, e);
    ProvenExact(e.attestation.value(ValidatedAt(env, e).0, env.clock));
  }

  /** With a log that signs only heads of its own list, the green key's leaf stands in that list, under this key. */
  lemma GreenKeyIsLogged(env: Env, e: Evidence, history: seq<Buffer>, messages: iset<Buffer>)
    requires EarnsGreen(env, e, false, false)
    requires e.registry.Some? && var a := e.registry.value;
             && (FindLog(env.logs, a.logId).Some? && FindLog(env.logs, a.logId).value.key.Some? ==>
                   SignsItsTree(env.h, env.verifies, FindLog(env.logs, a.logId).value.key.value, history))
             && InjectiveOn(env.h, messages)
             && (0 < a.head.treeSize <= |history| ==>
                   InclusionHashed(env.h, history, a.head.treeSize, env.enc.leaf(a.leaf), a.leafIndex, if AllDigests(a.path) then Digests(a.path) else [], messages))
    ensures var a := e.registry.value;
            && 0 <= a.leafIndex < a.head.treeSize <= |history| && history[a.leafIndex] == env.enc.leaf(a.leaf)
            && a.leaf.publicKey == e.sigPub && a.leaf.keyId == env.enc.hex(e.keyId)
            && e.deviceClock.Some? && a.head.timestamp <= e.deviceClock.value
  {
    hide SignsItsTree, InclusionHashed, Digests, Included, LeafHash, FindLog, ChainHolds, KeyStatusOf, SnapshotClears, IntegrityOf, TimestampOf, ChainOf, TrustedInstant, AttestedLevel, ClaimedLevel, Rank, DeclaredDigests, AppAdmitted;
    var a := e.registry.value;
    RegisteredIsLogged(env.h, env.enc, env.verifies, a, e.keyId, e.sigPub, env.logs, history, messages);
  }

  /** The attachments and answers a green ceiling cannot do without. */
  datatype Piece = TheRegistry | TheIntegrity | TheAttestation | TheSnapshot | TheKeyStatus | TheInstant

  function Stripped(e: Evidence, piece: Piece): Evidence {
    match piece
    case TheRegistry => e.(registry := None)
    case TheIntegrity => e.(integrity := None)
    case TheAttestation => e.(attestation := None)
    case TheSnapshot => e.(status := None)
    case TheKeyStatus => e.(keyStatus := None)
    case TheInstant => e.(token := Absent, chainRead := None)
  }

  /** Taking any of them away never makes a proof green, whatever it was before. */
  lemma StrippedIsNotGreen(env: Env, e: Evidence, piece: Piece, presentationDiffers: bool, timingDiffers: bool)
    ensures !EarnsGreen(env, Stripped(e, piece), presentationDiffers, timingDiffers)
  {
    hide VerifyRegistry, VerifyKeyStatus, Frozen, ValidateChain, VerifyIntegrity, SigningLogs, Digests, Included, LeafHash, Rank, ClaimedLevel, AppAdmitted, DeclaredDigests;
    match piece {
      case TheInstant => {}
      case _ => {}
    }
  }

  /** And taking away the integrity verdict leaves red red: stripping it buys nothing. */
  lemma StrippedIntegrityIsAsRed(env: Env, e: Evidence)
    ensures var less := Stripped(e, TheIntegrity);
            (KeyIsRevoked(env, less) || ChainIsRevoked(env, less)) <==> (KeyIsRevoked(env, e) || ChainIsRevoked(env, e))
  {
    hide VerifyRegistry, VerifyKeyStatus, Frozen, ValidateChain, VerifyAnchor, NamedLogs, AllLater;
    var less := Stripped(e, TheIntegrity);
    assert SigningLogs(env, less) == SigningLogs(env, e);
    assert ValidatedAt(env, less) == ValidatedAt(env, e);
  }

  // ---- a certificate the snapshot does not answer for ----

  predicate AllAnswered(env: Env, entries: seq<Entry>, serials: seq<string>) {
    forall i | 0 <= i < |serials| :: !Unanswered(env.normal, entries, serials[i])
  }

  /** Green with some certificate unanswered: then the snapshot lists a later revocation of another. */
  lemma UnansweredGreenIsRevoked(env: Env, e: Evidence, presentationDiffers: bool, timingDiffers: bool)
    requires EarnsGreen(env, e, presentationDiffers, timingDiffers)
    requires !AllAnswered(env, e.status.value.entries.value, ChainOf(env, e).value.serials)
    ensures var serials, entries := ChainOf(env, e).value.serials, e.status.value.entries.value;
            exists i, r | 0 <= i < |serials| :: StatusOf(env.normal, entries, serials[i]) == Some(Revoked(r)) && !r.retroactive && r.revokedAt.Some?
  {
    hide KeyStatusOf, TrustedInstant, IntegrityOf, RegistryOf, TimestampOf, AttestedLevel, DeclaredDigests, AppAdmitted, ClaimedLevel, ChainOf, SigningLogs, StatusOf, BeforeCapture;
    var serials, entries := ChainOf(env, e).value.serials, e.status.value.entries.value;
    var revoked := RevokedAmong(env.normal, entries, serials);
    assert revoked != [] && revoked[0] in revoked;
    RevokedExact(env.normal, entries, serials, revoked[0]);
    var i :| 0 <= i < |serials| && StatusOf(env.normal, entries, serials[i]) == Some(Revoked(revoked[0]));
  }

  /**
   Which other snapshots a green proof stays green with: signed ones that list no
   revocation of its chain and answer for every certificate, or that list some, all
   of them later, whatever they leave unanswered.
   */
  lemma SnapshotExchanged(env: Env, e: Evidence, a: StatusAttachment)
    requires EarnsGreen(env, e, false, false)
    ensures var serials, at := ChainOf(env, e).value.serials, TrustedInstant(env, e);
            EarnsGreen(env, e.(status := Some(a)), false, false) <==>
            && SnapshotSigned(env.verifies, e.coreHash, a, SigningLogs(env, e))
            && var revoked := RevokedAmong(env.normal, a.entries.value, serials);
            if revoked == [] then AllAnswered(env, a.entries.value, serials) else AllLater(revoked, at)
  {
    hide VerifyRegistry, VerifyKeyStatus, ValidateChain, VerifyAnchor, VerifyIntegrity, NamedLogs, AllLater, RevokedAmong, Unanswered, SnapshotSigned, Rank;
    var other := e.(status := Some(a));
    assert ValidatedAt(env, other) == ValidatedAt(env, e) && SigningLogs(env, other) == SigningLogs(env, e);
    assert ChainOf(env, other) == ChainOf(env, e);
  }

  const THE_KEY_ID: Buffer := seq(32, _ => 1)
  const THE_CORE: Buffer := seq(32, _ => 2)
  const LATER := Revocation(Some(200), false)

  /** An Android device registered in the one trusted log before its capture, at instant 100. */
  function OneLog(h: Hash, enc: Encodings, verifies: Signatures, key: Buffer, normal: string -> string): Env {
    Env(h, enc, verifies, normal, [TheLog(key)], 1, 1000)
  }

  function TheLog(key: Buffer): TrustedLog {
    TrustedLog("log", Some(key), Some(["app"]))
  }

  function TheLeaf(enc: Encodings): RegistryLeaf {
    RegistryLeaf("key", enc.hex(THE_KEY_ID), [4], "tee", 50)
  }

  function LoneLeaf(h: Hash, enc: Encodings, sign: Buffer -> Buffer): RegistryAttachment {
    var root := LeafHash(h, enc.leaf(TheLeaf(enc)));
    assert IsUint64(1) && IsUint64(50) by { Widths(); }
    RegistryAttachment("log", 0, TheLeaf(enc), [], TreeHead(1, 50, root, sign(TreeHeadMessage(1, 50, root).value)))
  }

  /** A chain of two certificates, on hardware, in a locked device. */
  function TwoCertificates(at: int, now: int): ChainWalk {
    Walked(0, false, Some(KeyDescription(Tee, Tee, Some(Boot(true, "verified")), Some(ORIGIN_GENERATED), Some(["app"]))), ["a", "b"])
  }

  /** The list revokes the first certificate at 200, and does not name the second. */
  function OneListed(list: Buffer, sign: Buffer -> Buffer): StatusAttachment {
    assert IsUint64(100) by { Widths(); }
    StatusAttachment("googleStatusList", Some([Entry("a", Revoked(LATER))]), list, Some(100), sign(AttestationStatusMessage(THE_CORE, list, 100).value))
  }

  function OneUnanswered(h: Hash, enc: Encodings, sign: Buffer -> Buffer, list: Buffer, body: Buffer): Evidence {
    assert IsUint64(100) && IsUint64(1) by { Widths(); }
    Evidence(
      "android", "tee", THE_KEY_ID, [4], THE_CORE, Some(100),
      Valid(100, 0, 1000), None, Some(LoneLeaf(h, enc, sign)), Some(IntegrityAttachment("playIntegrity", "hardware", Some(100), body, sign(IntegrityMessage(THE_CORE, body)))),
      Some(TwoCertificates), Some(OneListed(list, sign)),
      None, Some(KeyStatusStatement("log", 100, 1, 1, sign(KeyStatusMessage(THE_KEY_ID, 100, 1, 1).value))))
  }

  // Each part of the evidence, checked for itself.

  lemma HeadFits(root: Digest)
    ensures TreeHeadMessage(1, 50, root).Some?
  {
    Widths();
  }

  lemma LoneLeafRegistered(h: Hash, enc: Encodings, verifies: Signatures, key: Buffer, sign: Buffer -> Buffer)
    requires forall m :: verifies(key, m, sign(m))
    ensures VerifyRegistry(h, enc, verifies, LoneLeaf(h, enc, sign), THE_KEY_ID, [4], [TheLog(key)]) == Registered("tee", 50, 50)
  {
    Widths();
    hide Pow256, TreeHeadMessage;
    var a, log := LoneLeaf(h, enc, sign), TheLog(key);
    assert FindLog([log], "log") == Some(log);
    assert Digests(a.path) == [];
    var root := LeafHash(h, enc.leaf(TheLeaf(enc)));
    assert Included(h, root, 0, 1, [], root);
    HeadFits(root);
  }

  lemma ChainWitness()
    ensures ValidateChain(TwoCertificates(100, 1000)) == ChainOutcome("tee", false, false, Some(["app"]), ["a", "b"])
    ensures Rank("tee") == 1
  {
    ProvenExact(TwoCertificates(100, 1000));
  }

  lemma OneListedIsSigned(verifies: Signatures, key: Buffer, sign: Buffer -> Buffer, list: Buffer)
    requires forall m :: verifies(key, m, sign(m))
    ensures SnapshotSigned(verifies, THE_CORE, OneListed(list, sign), [TheLog(key)])
  {
    Widths();
    hide Pow256;
    var a, signers := OneListed(list, sign), [TheLog(key)];
    var message := AttestationStatusMessage(THE_CORE, list, 100);
    assert message.Some? && signers[0].key.Some? && verifies(key, message.value, sign(message.value));
  }

  lemma OneRevoked(normal: string -> string)
    requires normal("a") == "a"
    ensures var entries := [Entry("a", Revoked(LATER))];
            && StatusOf(normal, entries, "a") == Some(Revoked(LATER)) && Unanswered(normal, entries, "b")
            && RevokedAmong(normal, entries, ["a", "b"]) == [LATER]
  {
    var entries, serials := [Entry("a", Revoked(LATER))], ["a", "b"];
    assert entries[..0] == [] && "a" != "b";
    assert StatusOf(normal, entries, "b") == None;
    assert serials[..1] == ["a"] && ["a"][..0] == [];
    assert RevokedAmong(normal, entries, ["a"]) == [LATER];
  }

  lemma SnapshotWitness(verifies: Signatures, key: Buffer, sign: Buffer -> Buffer, list: Buffer, normal: string -> string)
    requires forall m :: verifies(key, m, sign(m))
    requires normal("a") == "a"
    ensures Frozen(verifies, normal, THE_CORE, OneListed(list, sign), [TheLog(key)], ["a", "b"]) == Checked([LATER], true)
  {
    OneListedIsSigned(verifies, key, sign, list);
    OneRevoked(normal);
    hide SnapshotSigned, RevokedAmong, Unanswered;
    var serials := ["a", "b"];
    assert Unanswered(normal, [Entry("a", Revoked(LATER))], serials[1]);
  }

  lemma StatusWitness(verifies: Signatures, key: Buffer, sign: Buffer -> Buffer)
    requires forall m :: verifies(key, m, sign(m))
    ensures var message := KeyStatusMessage(THE_KEY_ID, 100, 1, 1);
            message.Some? && VerifyKeyStatus(verifies, KeyStatusStatement("log", 100, 1, 1, sign(message.value)), THE_KEY_ID, 100, [TheLog(key)]) == Some(1)
  {
    Widths();
    hide Pow256;
    assert FindLog([TheLog(key)], "log") == Some(TheLog(key));
  }

  lemma IntegrityWitness(verifies: Signatures, key: Buffer, sign: Buffer -> Buffer, body: Buffer)
    requires forall m :: verifies(key, m, sign(m))
    ensures VerifyIntegrity(verifies, IntegrityAttachment("playIntegrity", "hardware", Some(100), body, sign(IntegrityMessage(THE_CORE, body))), THE_CORE, [TheLog(key)])
            == Attested("playIntegrity", "hardware")
  {
    var signers, message := [TheLog(key)], IntegrityMessage(THE_CORE, body);
    assert signers[0].key.Some? && verifies(key, message, sign(message));
  }

  lemma InstantWitness(h: Hash, enc: Encodings, verifies: Signatures, normal: string -> string, key: Buffer, sign: Buffer -> Buffer, list: Buffer, body: Buffer)
    ensures var env, e := OneLog(h, enc, verifies, key, normal), OneUnanswered(h, enc, sign, list, body);
            && TimestampOf(env, e) == Stamped(100) && ValidatedAt(env, e) == (100, FromTimestamp)
            && SigningLogs(env, e) == [TheLog(key)] && DeclaredDigests(env, e) == Some(["app"])
  {
    hide OneListed, KeyStatusMessage, IntegrityMessage;
    var env, e := OneLog(h, enc, verifies, key, normal), OneUnanswered(h, enc, sign, list, body);
    assert NamedLogs(env.logs, "log") == [TheLog(key)];
    assert FindLog(env.logs, "log") == Some(TheLog(key));
  }

  lemma EvidenceWitness(h: Hash, enc: Encodings, verifies: Signatures, normal: string -> string, key: Buffer, sign: Buffer -> Buffer, list: Buffer, body: Buffer)
    requires normal("a") == "a" && forall m :: verifies(key, m, sign(m))
    ensures var env, e := OneLog(h, enc, verifies, key, normal), OneUnanswered(h, enc, sign, list, body);
            && RegistryOf(env, e) == Registered("tee", 50, 50) && KeyStatusOf(env, e) == Some(1) && IntegrityOf(env, e) == Attested("playIntegrity", "hardware")
            && ChainOf(env, e) == Some(ChainOutcome("tee", false, false, Some(["app"]), ["a", "b"]))
            && ChainHolds(env, e) && FrozenOf(env, e) == Checked([LATER], true)
  {
    InstantWitness(h, enc, verifies, normal, key, sign, list, body);
    LoneLeafRegistered(h, enc, verifies, key, sign);
    ChainWitness();
    SnapshotWitness(verifies, key, sign, list, normal);
    StatusWitness(verifies, key, sign);
    IntegrityWitness(verifies, key, sign, body);
    hide ValidatedAt, SigningLogs, VerifyRegistry, VerifyKeyStatus, VerifyIntegrity, ValidateChain, Frozen, KeyStatusMessage, TwoCertificates;
  }

  /** A green proof one of whose certificates nobody answered for, under any hash, any signature scheme and any printed forms. */
  lemma GreenUnanswered(h: Hash, enc: Encodings, verifies: Signatures, normal: string -> string, key: Buffer, sign: Buffer -> Buffer, list: Buffer, body: Buffer)
    requires normal("a") == "a" && forall m :: verifies(key, m, sign(m))
    ensures var env, e := OneLog(h, enc, verifies, key, normal), OneUnanswered(h, enc, sign, list, body);
            && EarnsGreen(env, e, false, false)
            && ChainOf(env, e).value.serials == ["a", "b"]
            && StatusOf(normal, e.status.value.entries.value, "a") == Some(Revoked(LATER))
            && Unanswered(normal, e.status.value.entries.value, "b")
  {
    var env, e := OneLog(h, enc, verifies, key, normal), OneUnanswered(h, enc, sign, list, body);
    InstantWitness(h, enc, verifies, normal, key, sign, list, body);
    EvidenceWitness(h, enc, verifies, normal, key, sign, list, body);
    OneRevoked(normal);
    ChainWitness();
    hide RegistryOf, KeyStatusOf, IntegrityOf, ChainOf, ChainHolds, FrozenOf, TimestampOf, ValidatedAt, DeclaredDigests, StatusOf, Unanswered, SigningLogs, Rank;
    var carried, declared := ["app"], ["app"];
    assert carried[0] in declared;
  }
}

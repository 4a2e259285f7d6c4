/**
 What the two strong ceilings mean, exactly, in terms of the attachments themselves
 (tools/src/verify.ts, tools/src/registry.ts): which evidence is green, and which is red.
 */
module CeilingMeaning {
  import opened ByteStrings
  import opened Primitives
  import opened Merkle
  import opened Registry
  import opened Attestation
  import opened Level

  // ---- the logs whose word counts ----

  /** Log `i` is the first of its name. */
  predicate FirstNamed(logs: seq<TrustedLog>, logId: string, i: nat) {
    i < |logs| && logs[i].logId == logId && forall j | 0 <= j < i :: logs[j].logId != logId
  }

  lemma {:induction false} FindLogExact(logs: seq<TrustedLog>, logId: string)
    ensures forall i: nat | FirstNamed(logs, logId, i) :: FindLog(logs, logId) == Some(logs[i])
    ensures FindLog(logs, logId).None? <==> forall i | 0 <= i < |logs| :: logs[i].logId != logId
  {
    if |logs| > 0 && logs[0].logId != logId {
      FindLogExact(logs[1..], logId);
      assert forall i | 0 < i < |logs| :: logs[i] == logs[1..][i - 1];
      forall i: nat | FirstNamed(logs, logId, i)
        ensures FindLog(logs, logId) == Some(logs[i])
      {
        assert FirstNamed(logs[1..], logId, i - 1);
      }
    }
  }

  /** A trusted log speaks for a proof when the registry attachment names it, or names no trusted log. */
  predicate Speaks(env: Env, e: Evidence, trusted: TrustedLog) {
    && trusted in env.logs
    && (e.registry.Some? && (exists other | other in env.logs :: other.logId == e.registry.value.logId) ==> trusted.logId == e.registry.value.logId)
  }

  lemma {:induction false} NamedExact(logs: seq<TrustedLog>, logId: string, trusted: TrustedLog)
    ensures trusted in NamedLogs(logs, logId) <==> trusted in logs && trusted.logId == logId
  {
    if |logs| > 0 {
      NamedExact(logs[1..], logId, trusted);
    }
  }

  lemma SpeaksExact(env: Env, e: Evidence, trusted: TrustedLog)
    ensures trusted in SigningLogs(env, e) <==> Speaks(env, e, trusted)
  {
    hide NamedLogs;
    if e.registry.Some? {
      var named := NamedLogs(env.logs, e.registry.value.logId);
      NamedExact(env.logs, e.registry.value.logId, trusted);
      if |named| > 0 {
        NamedExact(env.logs, e.registry.value.logId, named[0]);
        assert named[0] in named;
      }
      forall other | other in env.logs && other.logId == e.registry.value.logId
        ensures |named| > 0
      {
        NamedExact(env.logs, e.registry.value.logId, other);
      }
    }
  }

  /** A log that speaks for the proof, and whose key is usable, signed this message. */
  predicate LogSigned(env: Env, e: Evidence, message: Option<Buffer>, signature: Buffer) {
    message.Some? && exists trusted | trusted in env.logs :: Speaks(env, e, trusted) && trusted.key.Some? && env.verifies(trusted.key.value, message.value, signature)
  }

  lemma LogSignedExact(env: Env, e: Evidence, message: Option<Buffer>, signature: Buffer)
    ensures SignedBySome(env.verifies, SigningLogs(env, e), message, signature) <==> LogSigned(env, e, message, signature)
  {
    hide SigningLogs, Speaks;
    var signers := SigningLogs(env, e);
    if SignedBySome(env.verifies, signers, message, signature) {
      var i :| 0 <= i < |signers| && signers[i].key.Some? && env.verifies(signers[i].key.value, message.value, signature);
      SpeaksExact(env, e, signers[i]);
      SpeaksIsTrusted(env, e, signers[i]);
    }
    if LogSigned(env, e, message, signature) {
      var trusted :| trusted in env.logs && Speaks(env, e, trusted) && trusted.key.Some? && env.verifies(trusted.key.value, message.value, signature);
      SpeaksExact(env, e, trusted);
      var i :| 0 <= i < |signers| && signers[i] == trusted;
    }
  }

  lemma SpeaksIsTrusted(env: Env, e: Evidence, trusted: TrustedLog)
    ensures Speaks(env, e, trusted) ==> trusted in env.logs
  {
  }

  // ---- the instant ----

  /** A contract recorded the anchor's root and size, the core hash climbs to that root, and the block was at `t`. */
  predicate OnChainAt(env: Env, e: Evidence, t: int) {
    && e.anchor.Some? && e.chainRead.Some?
    && var a, read := e.anchor.value, e.chainRead.value;
    && read.root == a.root && read.treeSize == a.treeSize && read.blockTime == Some(t)
    && |a.root| == 32 && AllDigests(a.path)
    && 0 <= a.index < a.treeSize && Climb(env.h, LeafHash(env.h, e.coreHash), a.index, a.treeSize, Digests(a.path)) == Some(a.root)
  }

  lemma BlockExact(env: Env, e: Evidence, t: int)
    ensures AnchoredAt(env, e) == Some(t) <==> OnChainAt(env, e, t)
  {
    hide Climb, LeafHash, Digests;
  }

  /** The token is valid, and a block of the anchor, where there is one, is no earlier than it and within its signer's validity. */
  ghost predicate TokenStands(env: Env, e: Evidence) {
    e.token.Valid? && forall t | OnChainAt(env, e, t) :: e.token.genTime <= t && e.token.from <= t <= e.token.to
  }

  /** The instant nobody can move: the token's, or else the block's. */
  ghost predicate ProvenAt(env: Env, e: Evidence, at: int) {
    if TokenStands(env, e) then at == e.token.genTime else OnChainAt(env, e, at)
  }

  lemma StampExact(env: Env, e: Evidence)
    ensures TimestampOf(env, e) == if TokenStands(env, e) then Stamped(e.token.genTime) else NoTimestamp
  {
    hide AnchoredAt, OnChainAt;
    if AnchoredAt(env, e).Some? {
      BlockExact(env, e, AnchoredAt(env, e).value);
    }
    forall t | OnChainAt(env, e, t)
      ensures AnchoredAt(env, e) == Some(t)
    {
      BlockExact(env, e, t);
    }
  }

  lemma InstantExact(env: Env, e: Evidence, at: int)
    ensures TrustedInstant(env, e) == Some(at) <==> ProvenAt(env, e, at)
    ensures ProvenAt(env, e, at) ==> ValidatedAt(env, e).0 == at
    ensures TrustedInstant(env, e).None? ==>
              ValidatedAt(env, e) == if e.deviceClock.Some? then (e.deviceClock.value, FromDeviceClock) else (env.clock, FromVerifierClock)
  {
    StampExact(env, e);
    BlockExact(env, e, at);
    hide AnchoredAt, OnChainAt, TimestampOf, TokenStands;
  }

  // ---- the key ----

  /** A trusted log's signed head covers a leaf that records this key. */
  predicate InLog(env: Env, e: Evidence) {
    && e.registry.Some?
    && var a := e.registry.value;
    && var log := FindLog(env.logs, a.logId);
    && log.Some? && log.value.key.Some?
    && |a.head.root| == 32 && AllDigests(a.path)
    && var head := TreeHeadMessage(a.head.treeSize, a.head.timestamp, a.head.root);
    && head.Some? && env.verifies(log.value.key.value, head.value, a.head.signature)
    && 0 <= a.leafIndex < a.head.treeSize && Climb(env.h, LeafHash(env.h, env.enc.leaf(a.leaf)), a.leafIndex, a.head.treeSize, Digests(a.path)) == Some(a.head.root)
    && a.leaf.kind == "key" && |e.keyId| == 32 && a.leaf.keyId == env.enc.hex(e.keyId) && a.leaf.publicKey == e.sigPub
  }

  lemma InLogExact(env: Env, e: Evidence)
    ensures RegistryOf(env, e).Registered? <==> InLog(env, e)
    ensures InLog(env, e) ==>
              var leaf := e.registry.value.leaf;
              RegistryOf(env, e) == Registered(leaf.secureHw, leaf.registeredAt, e.registry.value.head.timestamp)
    ensures e.registry.Some? && !InLog(env, e) ==>
              var log := FindLog(env.logs, e.registry.value.logId); RegistryOf(env, e) == NotRegistered(log.Some? && log.value.key.Some?)
  {
    hide FindLog, TreeHeadMessage, Climb, LeafHash, Digests;
  }

  /** A log that speaks for the proof signed this status of the key at this instant. */
  predicate KeyStatusSaid(env: Env, e: Evidence, at: int, status: int) {
    && e.keyStatus.Some?
    && var s := e.keyStatus.value;
    && s.at == at && s.status == status && 0 <= status <= 2
    && var log := FindLog(SigningLogs(env, e), s.logId);
    && log.Some? && log.value.key.Some?
    && var message := KeyStatusMessage(e.keyId, at, s.treeSize, status);
    && message.Some? && env.verifies(log.value.key.value, message.value, s.signature)
  }

  /** The instant the key's status is asked about: the proven one, or else now. */
  ghost predicate AskedAt(env: Env, e: Evidence, at: int) {
    ProvenAt(env, e, at) || ((forall t :: !ProvenAt(env, e, t)) && at == env.clock)
  }

  lemma StatusExact(env: Env, e: Evidence, at: int, status: int)
    requires AskedAt(env, e, at)
    ensures KeyStatusOf(env, e) == Some(status) <==> KeyStatusSaid(env, e, at, status)
  {
    InstantExact(env, e, at);
    if TrustedInstant(env, e).Some? {
      InstantExact(env, e, TrustedInstant(env, e).value);
    }
    hide TrustedInstant, ProvenAt, SigningLogs, FindLog, KeyStatusMessage;
  }

  // ---- the chain ----

  /** The chain was walked without a failed check to a key description, under a root this verifier has. */
  predicate Walks(env: Env, e: Evidence, at: int) {
    && e.platform == "android" && e.attestation.Some? && env.attestationRoots > 0
    && var walk := e.attestation.value(at, env.clock);
    && walk.Walked? && walk.failures == 0 && walk.description.Some?
  }

  lemma WalksExact(env: Env, e: Evidence)
    ensures var at := ValidatedAt(env, e).0;
            && (ChainHolds(env, e) <==> Walks(env, e, at))
            && (Walks(env, e, at) ==>
                  var walk := e.attestation.value(at, env.clock);
                  ChainOf(env, e).value.serials == walk.serials && ChainOf(env, e).value.appSigningDigests == walk.description.value.appSigningDigests)
  {
    hide ValidatedAt, Attestation.Rank, LevelName;
  }

  /** Both levels of the key's hardware are StrongBox. */
  predicate InStrongBox(walk: ChainWalk) {
    walk.Walked? && walk.description.Some? && walk.description.value.attestation == StrongBox && walk.description.value.keyMint == StrongBox
  }

  lemma AttestedExact(env: Env, e: Evidence)
    ensures var at := ValidatedAt(env, e).0;
            && (AttestedLevel(env, e) != "none" <==> Walks(env, e, at) && ProvesHardware(e.attestation.value(at, env.clock)))
            && (AttestedLevel(env, e) != "none" ==>
                  AttestedLevel(env, e) == if InStrongBox(e.attestation.value(at, env.clock)) then "strongbox" else "tee")
  {
    WalksExact(env, e);
    var at := ValidatedAt(env, e).0;
    hide ValidatedAt, Attestation.Rank, LevelName, ValidateChain, ChainHolds;
    if Walks(env, e, at) {
      ProvenExact(e.attestation.value(at, env.clock));
    }
  }

  /** A claim above a level of hardware is a claim of StrongBox above less. */
  lemma AboveExact(claim: string)
    ensures Attestation.Rank(claim) > Attestation.Rank("strongbox") <==> false
    ensures Attestation.Rank(claim) > Attestation.Rank("tee") <==> claim == "strongbox"
  {
    assert "tee"[0] == 't' && "strongbox"[0] == 's';
  }

  // ---- the snapshot ----

  /** Entry `i` is the list's last for this serial. */
  predicate LastFor(normal: string -> string, entries: seq<Entry>, serial: string, i: nat) {
    && i < |entries| && entries[i].Entry? && normal(entries[i].serial) == serial
    && forall j | i < j < |entries| :: !(entries[j].Entry? && normal(entries[j].serial) == serial)
  }

  lemma {:induction false} StatusOfExact(normal: string -> string, entries: seq<Entry>, serial: string)
    ensures forall i: nat | LastFor(normal, entries, serial, i) :: StatusOf(normal, entries, serial) == Some(entries[i].status)
    ensures StatusOf(normal, entries, serial).Some? ==> exists i: nat :: LastFor(normal, entries, serial, i)
  {
    if |entries| > 0 {
      var n := |entries| - 1;
      if entries[n].Entry? && normal(entries[n].serial) == serial {
        assert LastFor(normal, entries, serial, n);
      } else {
        var most := entries[..n];
        StatusOfExact(normal, most, serial);
        assert forall i | 0 <= i < n :: most[i] == entries[i];
        forall i: nat | LastFor(normal, entries, serial, i)
          ensures StatusOf(normal, entries, serial) == Some(entries[i].status)
        {
          assert LastFor(normal, most, serial, i);
        }
        if StatusOf(normal, most, serial).Some? {
          var i: nat :| LastFor(normal, most, serial, i);
          assert LastFor(normal, entries, serial, i);
        }
      }
    }
  }

  /** A usable list of the source this verifier knows, signed over this core by a log that speaks for the proof. */
  predicate Snapshot(env: Env, e: Evidence) {
    && e.status.Some?
    && var a := e.status.value;
    && a.source == "googleStatusList" && a.entries.Some? && a.fetchedAt.Some?
    && LogSigned(env, e, AttestationStatusMessage(e.coreHash, a.printed, a.fetchedAt.value), a.signature)
  }

  /** The list revokes one of these certificates, in this way. */
  predicate Lists(env: Env, e: Evidence, serials: seq<string>, r: Revocation)
    requires e.status.Some? && e.status.value.entries.Some?
  {
    exists i | 0 <= i < |serials| :: StatusOf(env.normal, e.status.value.entries.value, serials[i]) == Some(Revoked(r))
  }

  /** Every revocation it lists is dated after this instant, for a reason that does not reach back. */
  ghost predicate OnlyLater(env: Env, e: Evidence, serials: seq<string>, at: int)
    requires e.status.Some? && e.status.value.entries.Some?
  {
    forall r | Lists(env, e, serials, r) :: !r.retroactive && r.revokedAt.Some? && at < r.revokedAt.value
  }

  /** It calls every one of these certificates valid. */
  predicate AllValid(env: Env, e: Evidence, serials: seq<string>)
    requires e.status.Some? && e.status.value.entries.Some?
  {
    forall i | 0 <= i < |serials| :: StatusOf(env.normal, e.status.value.entries.value, serials[i]) == Some(ValidCertificate)
  }

  lemma ListedExact(env: Env, e: Evidence, serials: seq<string>, r: Revocation)
    requires e.status.Some? && e.status.value.entries.Some?
    ensures r in RevokedAmong(env.normal, e.status.value.entries.value, serials) <==> Lists(env, e, serials, r)
  {
    RevokedExact(env.normal, e.status.value.entries.value, serials, r);
  }

  lemma LaterExact(env: Env, e: Evidence, serials: seq<string>, at: int)
    requires e.status.Some? && e.status.value.entries.Some?
    ensures var revoked := RevokedAmong(env.normal, e.status.value.entries.value, serials);
            && (AllLater(revoked, Some(at)) <==> OnlyLater(env, e, serials, at))
            && (revoked == [] <==> forall r :: !Lists(env, e, serials, r))
  {
    hide RevokedAmong, Lists;
    var revoked := RevokedAmong(env.normal, e.status.value.entries.value, serials);
    forall r
      ensures r in revoked <==> Lists(env, e, serials, r)
    {
      ListedExact(env, e, serials, r);
    }
    if revoked != [] {
      assert revoked[0] in revoked;
    }
    if OnlyLater(env, e, serials, at) {
      forall i | 0 <= i < |revoked|
        ensures !revoked[i].retroactive && revoked[i].revokedAt.Some? && at < revoked[i].revokedAt.value
      {
        assert revoked[i] in revoked;
      }
    }
    if AllLater(revoked, Some(at)) {
      forall r | Lists(env, e, serials, r)
        ensures !r.retroactive && r.revokedAt.Some? && at < r.revokedAt.value
      {
        var i :| 0 <= i < |revoked| && revoked[i] == r;
      }
    }
  }

  lemma AnsweredExact(env: Env, e: Evidence, serials: seq<string>)
    requires e.status.Some? && e.status.value.entries.Some?
    ensures AllValid(env, e, serials) <==>
            RevokedAmong(env.normal, e.status.value.entries.value, serials) == []
            && forall i | 0 <= i < |serials| :: !Unanswered(env.normal, e.status.value.entries.value, serials[i])
  {
    var entries := e.status.value.entries.value;
    var revoked := RevokedAmong(env.normal, entries, serials);
    hide StatusOf, RevokedAmong;
    forall r
      ensures r in revoked <==> Lists(env, e, serials, r)
    {
      ListedExact(env, e, serials, r);
    }
    if revoked != [] {
      assert revoked[0] in revoked;
      var i :| 0 <= i < |serials| && StatusOf(env.normal, entries, serials[i]) == Some(Revoked(revoked[0]));
    }
    forall i | 0 <= i < |serials| && revoked == [] && !Unanswered(env.normal, entries, serials[i])
      ensures StatusOf(env.normal, entries, serials[i]) == Some(ValidCertificate)
    {
      var status := StatusOf(env.normal, entries, serials[i]).value;
      assert status.Revoked? ==> Lists(env, e, serials, status.revocation);
    }
  }

  lemma FrozenExact(env: Env, e: Evidence)
    requires ChainHolds(env, e)
    ensures FrozenOf(env, e).Checked? <==> Snapshot(env, e)
    ensures Snapshot(env, e) ==>
              && FrozenOf(env, e).revoked == RevokedAmong(env.normal, e.status.value.entries.value, ChainOf(env, e).value.serials)
              && (FrozenOf(env, e).incomplete <==>
                    exists i | 0 <= i < |ChainOf(env, e).value.serials| :: Unanswered(env.normal, e.status.value.entries.value, ChainOf(env, e).value.serials[i]))
  {
    hide ChainHolds, ChainOf, SigningLogs, LogSigned, AttestationStatusMessage, RevokedAmong, Unanswered, SignedBySome;
    assert ChainOf(env, e).Some? by { HoldsIsChain(env, e); }
    if e.status.Some? && e.status.value.fetchedAt.Some? {
      var a := e.status.value;
      LogSignedExact(env, e, AttestationStatusMessage(e.coreHash, a.printed, a.fetchedAt.value), a.signature);
    }
  }

  lemma HoldsIsChain(env: Env, e: Evidence)
    ensures ChainHolds(env, e) ==> ChainOf(env, e).Some?
  {
    hide ChainOf;
  }

  // ---- the app and the device ----

  /** Some signing digest the chain carries is one the named log declares for the apps it admits. */
  predicate AppDeclared(env: Env, e: Evidence, walk: ChainWalk) {
    && walk.Walked? && walk.description.Some? && walk.description.value.appSigningDigests.Some?
    && e.registry.Some?
    && var log := FindLog(env.logs, e.registry.value.logId);
    && log.Some? && log.value.appSigningDigests.Some?
    && exists digest | digest in walk.description.value.appSigningDigests.value :: digest in log.value.appSigningDigests.value
  }

  lemma AppExact(env: Env, e: Evidence, walk: ChainWalk)
    requires walk.Walked? && walk.description.Some?
    ensures AppAdmitted(DeclaredDigests(env, e), walk.description.value.appSigningDigests) <==> AppDeclared(env, e, walk)
  {
    hide FindLog;
    var declared, carried := DeclaredDigests(env, e), walk.description.value.appSigningDigests;
    if AppDeclared(env, e, walk) {
      var digest :| digest in carried.value && digest in declared.value;
      var i :| 0 <= i < |carried.value| && carried.value[i] == digest;
    }
    if AppAdmitted(declared, carried) {
      var i :| 0 <= i < |carried.value| && carried.value[i] in declared.value;
      assert carried.value[i] in carried.value;
    }
  }

  /** A log that speaks for the proof signed Play Integrity's verdict, and the verdict is hardware. */
  predicate DeviceProven(env: Env, e: Evidence) {
    && e.integrity.Some?
    && var a := e.integrity.value;
    && a.source == "playIntegrity" && a.verdict == "hardware" && a.evaluatedAt.Some?
    && LogSigned(env, e, Some(IntegrityMessage(e.coreHash, a.printed)), a.signature)
  }

  lemma DeviceExact(env: Env, e: Evidence)
    ensures IntegrityOf(env, e) == Attested("playIntegrity", "hardware") <==> DeviceProven(env, e)
  {
    hide SigningLogs, LogSigned, IntegrityMessage, SignedBySome;
    if e.integrity.Some? {
      var a := e.integrity.value;
      LogSignedExact(env, e, Some(IntegrityMessage(e.coreHash, a.printed)), a.signature);
    }
  }

  // ---- green, and red ----

  /** The attachments a green ceiling takes, at the proven instant `at`. */
  ghost predicate GreenAt(env: Env, e: Evidence, at: int) {
    && ProvenAt(env, e, at)
    && Walks(env, e, at)
    && var walk := e.attestation.value(at, env.clock);
    && ProvesHardware(walk) && AppDeclared(env, e, walk)
    && Snapshot(env, e) && (AllValid(env, e, walk.serials) || ((exists r :: Lists(env, e, walk.serials, r)) && OnlyLater(env, e, walk.serials, at)))
    && InLog(env, e) && KeyStatusSaid(env, e, at, 1)
    && var head := e.registry.value.head.timestamp;
    && e.deviceClock.Some? && head <= e.deviceClock.value && (TokenStands(env, e) ==> head <= e.token.genTime)
    && (e.secureHw == "strongbox" || e.registry.value.leaf.secureHw == "strongbox" ==> InStrongBox(walk))
    && DeviceProven(env, e)
  }

  lemma ClaimsExact(env: Env, e: Evidence)
    requires AttestedLevel(env, e) != "none" && e.platform == "android" && InLog(env, e)
    ensures var at := ValidatedAt(env, e).0;
            !Level.Above(ClaimedLevel(e), AttestedLevel(env, e)) && !Level.Above(RegistryOf(env, e).secureHw, AttestedLevel(env, e)) <==>
            (e.secureHw == "strongbox" || e.registry.value.leaf.secureHw == "strongbox" ==> InStrongBox(e.attestation.value(at, env.clock)))
  {
    AttestedExact(env, e);
    InLogExact(env, e);
    AboveExact(ClaimedLevel(e));
    AboveExact(RegistryOf(env, e).secureHw);
    assert ClaimedLevel(e) == "strongbox" <==> e.secureHw == "strongbox" by {
      assert "none"[0] == 'n' && "strongbox"[0] == 's';
    }
    hide AttestedLevel, ClaimedLevel, RegistryOf, InLog, ValidatedAt, Attestation.Rank, InStrongBox, ProvesHardware;
  }

  lemma ClearsExact(env: Env, e: Evidence, at: int)
    requires ChainHolds(env, e) && TrustedInstant(env, e) == Some(at)
    ensures SnapshotClears(env, e) <==>
            && Snapshot(env, e)
            && var serials := ChainOf(env, e).value.serials;
            (AllValid(env, e, serials) || ((exists r :: Lists(env, e, serials, r)) && OnlyLater(env, e, serials, at)))
  {
    FrozenExact(env, e);
    HoldsIsChain(env, e);
    hide ChainHolds, ChainOf, FrozenOf, TrustedInstant, AllLater, AllValid, Lists, OnlyLater, Unanswered, RevokedAmong;
    if Snapshot(env, e) {
      LaterExact(env, e, ChainOf(env, e).value.serials, at);
      AnsweredExact(env, e, ChainOf(env, e).value.serials);
    }
  }

  /** Green is earned exactly by these attachments, all at one proven instant, over a file nothing else is said against. */
  lemma GreenExact(env: Env, e: Evidence, presentationDiffers: bool, timingDiffers: bool)
    ensures EarnsGreen(env, e, presentationDiffers, timingDiffers) <==>
            !presentationDiffers && !timingDiffers && exists at :: GreenAt(env, e, at)
  {
    hide EarnsGreen, GreenAt;
    if TrustedInstant(env, e).Some? {
      var at := TrustedInstant(env, e).value;
      GreenAtInstant(env, e, at, presentationDiffers, timingDiffers);
      forall t | GreenAt(env, e, t)
        ensures t == at
      {
        GreenIsProven(env, e, t);
        InstantExact(env, e, t);
      }
    } else {
      forall t
        ensures !GreenAt(env, e, t)
      {
        if GreenAt(env, e, t) {
          GreenIsProven(env, e, t);
          InstantExact(env, e, t);
        }
      }
      GreenNeedsInstant(env, e, presentationDiffers, timingDiffers);
    }
  }

  lemma GreenNeedsInstant(env: Env, e: Evidence, presentationDiffers: bool, timingDiffers: bool)
    ensures EarnsGreen(env, e, presentationDiffers, timingDiffers) ==> TrustedInstant(env, e).Some?
  {
    hide TrustedInstant;
  }

  lemma GreenIsProven(env: Env, e: Evidence, at: int)
    requires GreenAt(env, e, at)
    ensures ProvenAt(env, e, at)
  {
  }

  lemma GreenAtInstant(env: Env, e: Evidence, at: int, presentationDiffers: bool, timingDiffers: bool)
    requires TrustedInstant(env, e) == Some(at)
    ensures EarnsGreen(env, e, presentationDiffers, timingDiffers) <==> !presentationDiffers && !timingDiffers && GreenAt(env, e, at)
  {
    InstantExact(env, e, at);
    StatusExact(env, e, at, 1);
    InLogExact(env, e);
    StampExact(env, e);
    WalksExact(env, e);
    AttestedExact(env, e);
    DeviceExact(env, e);
    hide TrustedInstant, ProvenAt, ValidatedAt, KeyStatusOf, KeyStatusSaid, RegistryOf, InLog, TimestampOf, TokenStands, AttestedLevel, ChainHolds, ChainOf, Walks,
         IntegrityOf, DeviceProven, SnapshotClears, Snapshot, AllValid, Lists, OnlyLater, ClaimedLevel, Attestation.Rank, AppAdmitted, AppDeclared, InStrongBox, ProvesHardware, DeclaredDigests, Level.Above;
    if ChainHolds(env, e) && AttestedLevel(env, e) != "none" && RegistryOf(env, e).Registered? {
      ClearsExact(env, e, at);
      WalksAre(env, e, at);
      AppExact(env, e, e.attestation.value(at, env.clock));
      ClaimsExact(env, e);
    }
    WalksAre(env, e, at);
  }

  lemma WalksAre(env: Env, e: Evidence, at: int)
    ensures Walks(env, e, at) ==> e.platform == "android" && e.attestation.Some? && e.attestation.value(at, env.clock).Walked? && e.attestation.value(at, env.clock).description.Some?
  {
  }

  /** Red: a log says the registered key is revoked, or the snapshot lists a revocation of the chain that nothing proves later. */
  ghost predicate RedFor(env: Env, e: Evidence, asked: int) {
    || (InLog(env, e) && KeyStatusSaid(env, e, asked, 2))
    || (var at := ValidatedAt(env, e).0;
        && Walks(env, e, at) && Snapshot(env, e)
        && var serials := e.attestation.value(at, env.clock).serials;
        && (exists r :: Lists(env, e, serials, r)) && !(ProvenAt(env, e, at) && OnlyLater(env, e, serials, at)))
  }

  lemma ChainRedExact(env: Env, e: Evidence)
    ensures ChainIsRevoked(env, e) <==>
            var at := ValidatedAt(env, e).0;
            && Walks(env, e, at) && Snapshot(env, e)
            && var serials := e.attestation.value(at, env.clock).serials;
            && (exists r :: Lists(env, e, serials, r)) && !(ProvenAt(env, e, at) && OnlyLater(env, e, serials, at))
  {
    var at := ValidatedAt(env, e).0;
    WalksExact(env, e);
    InstantExact(env, e, at);
    hide ValidatedAt, ProvenAt, TrustedInstant, ChainHolds, ChainOf, Walks, FrozenOf, AllLater, RevokedAmong, Lists, OnlyLater, Snapshot;
    if ChainHolds(env, e) {
      FrozenExact(env, e);
      WalksAre(env, e, at);
      if Snapshot(env, e) {
        SnapshotHasEntries(env, e);
        TrustedIsValidated(env, e);
        LaterExact(env, e, e.attestation.value(at, env.clock).serials, at);
      }
    }
  }

  lemma SnapshotHasEntries(env: Env, e: Evidence)
    ensures Snapshot(env, e) ==> e.status.Some? && e.status.value.entries.Some?
  {
  }

  lemma TrustedIsValidated(env: Env, e: Evidence)
    ensures TrustedInstant(env, e).Some? ==> TrustedInstant(env, e) == Some(ValidatedAt(env, e).0)
    ensures forall revoked :: AllLater(revoked, None) <==> false
  {
    hide ValidatedAt;
  }

  /** A ceiling is red exactly then, whatever instant the key's status was to be asked about. */
  lemma RedExact(env: Env, e: Evidence, asked: int)
    requires AskedAt(env, e, asked)
    ensures KeyIsRevoked(env, e) || ChainIsRevoked(env, e) <==> RedFor(env, e, asked)
  {
    InLogExact(env, e);
    StatusExact(env, e, asked, 2);
    ChainRedExact(env, e);
    hide ValidatedAt, ProvenAt, ChainIsRevoked, RegistryOf, InLog, KeyStatusOf, KeyStatusSaid, Walks, Snapshot, Lists, OnlyLater;
  }

  /** There is always one instant the status is asked about. */
  lemma AskedOnce(env: Env, e: Evidence) returns (at: int)
    ensures AskedAt(env, e, at)
    ensures forall t | AskedAt(env, e, t) :: t == at
  {
    at := if TrustedInstant(env, e).Some? then TrustedInstant(env, e).value else env.clock;
    hide TrustedInstant, ProvenAt;
    forall t
      ensures TrustedInstant(env, e) == Some(t) <==> ProvenAt(env, e, t)
    {
      InstantExact(env, e, t);
    }
  }
}

/**
 Evidence signed by a transparency log (tools/src/registry.ts, tools/src/anchor.ts):
 the messages its key signs, the registry attachment, the online key status and
 the anchor.
 */
module Registry {
  import opened ByteStrings
  import opened Primitives
  import opened Merkle

  // ---- the messages ----

  /** "vcap/1.0/": every separator continues it. */
  const PREFIX: Buffer := [0x76, 0x63, 0x61, 0x70, 0x2f, 0x31, 0x2e, 0x30, 0x2f]

  /** "sth" */
  const TREE_HEAD: Buffer := PREFIX + [0x73, 0x74, 0x68]
  /** "status" */
  const KEY_STATUS: Buffer := PREFIX + [0x73, 0x74, 0x61, 0x74, 0x75, 0x73]
  /** "attestation-status" */
  const ATTESTATION_STATUS: Buffer := PREFIX + [0x61, 0x74, 0x74, 0x65, 0x73, 0x74, 0x61, 0x74, 0x69, 0x6f, 0x6e, 0x2d, 0x73, 0x74, 0x61, 0x74, 0x75, 0x73]
  /** "integrity" */
  const INTEGRITY: Buffer := PREFIX + [0x69, 0x6e, 0x74, 0x65, 0x67, 0x72, 0x69, 0x74, 0x79]

  predicate IsUint64(v: int) {
    0 <= v < Pow256(8)
  }

  /** None where the integer does not fit its eight bytes. */
  function TreeHeadMessage(treeSize: int, timestamp: int, root: Digest): Option<Buffer> {
    if !IsUint64(treeSize) || !IsUint64(timestamp) then None
    else Some(TREE_HEAD + BigEndian(treeSize, 8) + BigEndian(timestamp, 8) + root)
  }

  function KeyStatusMessage(keyId: Buffer, at: int, treeSize: int, status: Byte): Option<Buffer> {
    if !IsUint64(at) || !IsUint64(treeSize) then None
    else Some(KEY_STATUS + keyId + BigEndian(at, 8) + BigEndian(treeSize, 8) + [status])
  }

  /** `entries` are the canonical JSON of the snapshot's list. */
  function AttestationStatusMessage(coreHash: Buffer, entries: Buffer, fetchedAt: int): Option<Buffer> {
    if !IsUint64(fetchedAt) then None else Some(ATTESTATION_STATUS + coreHash + entries + BigEndian(fetchedAt, 8))
  }

  /** `body` is the canonical JSON of the attachment without its signature. */
  function IntegrityMessage(coreHash: Buffer, body: Buffer): Buffer {
    INTEGRITY + coreHash + body
  }

  /** The kinds of message a log's key signs, told apart by the bytes after the common prefix. */
  lemma SeparatorsApart(a: Buffer, b: Buffer, c: Buffer, d: Buffer)
    ensures TREE_HEAD + a != KEY_STATUS + b && TREE_HEAD + a != ATTESTATION_STATUS + c && TREE_HEAD + a != INTEGRITY + d
    ensures KEY_STATUS + b != ATTESTATION_STATUS + c && KEY_STATUS + b != INTEGRITY + d && ATTESTATION_STATUS + c != INTEGRITY + d
  {
    assert (TREE_HEAD + a)[9] == 0x73 && (TREE_HEAD + a)[11] == 0x68;
    assert (KEY_STATUS + b)[9] == 0x73 && (KEY_STATUS + b)[11] == 0x61;
    assert (ATTESTATION_STATUS + c)[9] == 0x61;
    assert (INTEGRITY + d)[9] == 0x69;
  }

  /** A signature over one kind of message is never a signature over another. */
  lemma MessagesApart(treeSize: int, timestamp: int, root: Digest, keyId: Buffer, at: int, size: int, status: Byte,
                      core: Buffer, entries: Buffer, fetchedAt: int, core': Buffer, body: Buffer)
    ensures var head, state := TreeHeadMessage(treeSize, timestamp, root), KeyStatusMessage(keyId, at, size, status);
            var list, device := AttestationStatusMessage(core, entries, fetchedAt), Some(IntegrityMessage(core', body));
            && (head.Some? ==> head != state && head != list && head != device)
            && (state.Some? ==> state != list && state != device)
            && list != device
  {
    var a, b := BigEndian(if IsUint64(treeSize) then treeSize else 0, 8), BigEndian(if IsUint64(timestamp) then timestamp else 0, 8);
    var c, d := BigEndian(if IsUint64(at) then at else 0, 8), BigEndian(if IsUint64(size) then size else 0, 8);
    var e := BigEndian(if IsUint64(fetchedAt) then fetchedAt else 0, 8);
    SeparatorsApart(a + b + root, keyId + c + d + [status], core + entries + e, core' + body);
    assert TREE_HEAD + (a + b + root) == TREE_HEAD + a + b + root;
    assert KEY_STATUS + (keyId + c + d + [status]) == KEY_STATUS + keyId + c + d + [status];
    assert ATTESTATION_STATUS + (core + entries + e) == ATTESTATION_STATUS + core + entries + e;
    assert INTEGRITY + (core' + body) == INTEGRITY + core' + body;
  }

  lemma TreeHeadInjective(n: int, t: int, root: Digest, n': int, t': int, root': Digest)
    requires TreeHeadMessage(n, t, root).Some? && TreeHeadMessage(n, t, root) == TreeHeadMessage(n', t', root')
    ensures n == n' && t == t' && root == root'
  {
    var a, b, a', b' := BigEndian(n, 8), BigEndian(t, 8), BigEndian(n', 8), BigEndian(t', 8);
    SplitEqual(TREE_HEAD + a + b, root, TREE_HEAD + a' + b', root');
    SplitEqual(TREE_HEAD + a, b, TREE_HEAD + a', b');
    SplitEqual(TREE_HEAD, a, TREE_HEAD, a');
    BigEndianInjective(n, n', 8);
    BigEndianInjective(t, t', 8);
  }

  // ---- the logs a verifier trusts ----

  /** `key` is none when its SubjectPublicKeyInfo is unusable. */
  datatype TrustedLog = TrustedLog(logId: string, key: Option<Buffer>, appSigningDigests: Option<seq<string>>)

  /** ES256: public key, message, signature. */
  type Signatures = (Buffer, Buffer, Buffer) -> bool

  /** The first trusted log with this name. */
  function FindLog(logs: seq<TrustedLog>, logId: string): Option<TrustedLog> {
    if |logs| == 0 then None else if logs[0].logId == logId then Some(logs[0]) else FindLog(logs[1..], logId)
  }

  /** Whether the key of one of these logs signed the message. */
  predicate SignedBySome(verifies: Signatures, signers: seq<TrustedLog>, message: Option<Buffer>, signature: Buffer) {
    message.Some? && exists i | 0 <= i < |signers| :: signers[i].key.Some? && verifies(signers[i].key.value, message.value, signature)
  }

  // ---- the registry attachment ----

  datatype RegistryLeaf = RegistryLeaf(kind: string, keyId: string, publicKey: Buffer, secureHw: string, registeredAt: int)

  datatype TreeHead = TreeHead(treeSize: int, timestamp: int, root: Buffer, signature: Buffer)

  datatype RegistryAttachment = RegistryAttachment(logId: string, leafIndex: int, leaf: RegistryLeaf, path: seq<Buffer>, head: TreeHead)

  datatype RegistryOutcome =
    | Registered(secureHw: string, registeredAt: int, headTimestamp: int)
    | NotRegistered(trusted: bool)

  /** The encodings the check rests on: the leaf's canonical JSON and lowercase hex. */
  datatype Encodings = Encodings(leaf: RegistryLeaf -> Buffer, hex: Buffer -> string)

  predicate AllDigests(path: seq<Buffer>) {
    forall i | 0 <= i < |path| :: |path[i]| == 32
  }

  function Digests(path: seq<Buffer>): seq<Digest>
    requires AllDigests(path)
  {
    seq(|path|, i requires 0 <= i < |path| => path[i])
  }

  /** A key is registered when a pinned log signed the head, the leaf climbs to its root, and the leaf is of this key. */
  function VerifyRegistry(h: Hash, enc: Encodings, verifies: Signatures, a: RegistryAttachment, keyId: Buffer, sigPub: Buffer, logs: seq<TrustedLog>): RegistryOutcome {
    var log := FindLog(logs, a.logId);
    if log.None? || log.value.key.None? then NotRegistered(false)
    else if |a.head.root| != 32 || !AllDigests(a.path) then NotRegistered(true)
    else
      var root: Digest := a.head.root;
      var head := TreeHeadMessage(a.head.treeSize, a.head.timestamp, root);
      if head.None? || !verifies(log.value.key.value, head.value, a.head.signature) then NotRegistered(true)
      else if !Included(h, LeafHash(h, enc.leaf(a.leaf)), a.leafIndex, a.head.treeSize, Digests(a.path), root) then NotRegistered(true)
      else if a.leaf.kind != "key" || |keyId| != 32 || a.leaf.keyId != enc.hex(keyId) || a.leaf.publicKey != sigPub then NotRegistered(true)
      else Registered(a.leaf.secureHw, a.leaf.registeredAt, a.head.timestamp)
  }

  /** Of tree heads, the log's key signed only those of its own list at some size. */
  ghost predicate SignsItsTree(h: Hash, verifies: Signatures, key: Buffer, history: seq<Buffer>) {
    forall message, signature, n, t, root | verifies(key, message, signature) && TreeHeadMessage(n, t, root) == Some(message) ::
      0 < n <= |history| && root == Root(h, history[..n])
  }

  /** Every message hashed for the tree of this size and for the attachment's own climb is in `messages`. */
  ghost predicate InclusionHashed(h: Hash, history: seq<Buffer>, n: int, leaf: Buffer, index: int, path: seq<Digest>, messages: iset<Buffer>) {
    && 0 < n <= |history| && TreeHashed(h, history[..n], messages) && LeafMessage(leaf) in messages
    && (0 <= index < n ==> ClimbHashed(h, LeafHash(h, leaf), index, n, path, messages))
  }

  /** A registered key's leaf stands at that index of the list the log had when it signed the head. */
  lemma RegisteredIsLogged(h: Hash, enc: Encodings, verifies: Signatures, a: RegistryAttachment, keyId: Buffer, sigPub: Buffer, logs: seq<TrustedLog>,
                           history: seq<Buffer>, messages: iset<Buffer>)
    requires VerifyRegistry(h, enc, verifies, a, keyId, sigPub, logs).Registered?
    requires SignsItsTree(h, verifies, FindLog(logs, a.logId).value.key.value, history)
    requires InjectiveOn(h, messages)
    requires 0 < a.head.treeSize <= |history| ==> InclusionHashed(h, history, a.head.treeSize, enc.leaf(a.leaf), a.leafIndex, Digests(a.path), messages)
    ensures 0 <= a.leafIndex < a.head.treeSize <= |history|
    ensures history[a.leafIndex] == enc.leaf(a.leaf)
    ensures a.leaf.kind == "key" && a.leaf.keyId == enc.hex(keyId) && a.leaf.publicKey == sigPub
  {
    var root: Digest := a.head.root;
    var key := FindLog(logs, a.logId).value.key.value;
    var message := TreeHeadMessage(a.head.treeSize, a.head.timestamp, root).value;
    assert verifies(key, message, a.head.signature) && TreeHeadMessage(a.head.treeSize, a.head.timestamp, root) == Some(message);
    InclusionExact(h, history[..a.head.treeSize], enc.leaf(a.leaf), a.leafIndex, Digests(a.path), messages);
  }

  // ---- the online key status ----

  datatype KeyStatusStatement = KeyStatusStatement(logId: string, at: int, treeSize: int, status: int, signature: Buffer)

  /** The status a trusted log signed for this key at this instant; none when the statement is not one. */
  function VerifyKeyStatus(verifies: Signatures, s: KeyStatusStatement, keyId: Buffer, at: int, logs: seq<TrustedLog>): Option<int> {
    var log := FindLog(logs, s.logId);
    if log.None? || log.value.key.None? then None
    else if s.at != at || !(0 <= s.status <= 2) then None
    else
      var message := KeyStatusMessage(keyId, s.at, s.treeSize, s.status);
      if message.None? || !verifies(log.value.key.value, message.value, s.signature) then None else Some(s.status)
  }

  // ---- the anchor ----

  datatype AnchorAttachment = AnchorAttachment(index: int, treeSize: int, root: Buffer, path: seq<Buffer>)

  /** What the contract recorded, as a caller read it. */
  datatype ChainRead = ChainRead(root: Buffer, treeSize: int, blockTime: Option<int>)

  datatype AnchorOutcome = Anchored(onChain: bool, blockTime: Option<int>) | NotAnchored

  function VerifyAnchor(h: Hash, a: AnchorAttachment, coreHash: Buffer, read: Option<ChainRead>): AnchorOutcome {
    if |a.root| != 32 || !AllDigests(a.path) then NotAnchored
    else if !Included(h, LeafHash(h, coreHash), a.index, a.treeSize, Digests(a.path), a.root) then NotAnchored
    else if read.None? then Anchored(false, None)
    else if read.value.treeSize != a.treeSize || read.value.root != a.root then NotAnchored
    else Anchored(true, read.value.blockTime)
  }

  /**
   Against a read of the root and size of `batch`, the anchor holds exactly when the
   core hash stands in the batch at that index with the path the builder gives it.
   */
  lemma AnchorExact(h: Hash, batch: seq<Buffer>, a: AnchorAttachment, coreHash: Buffer, blockTime: Option<int>, messages: iset<Buffer>)
    requires |batch| > 0 && InjectiveOn(h, messages) && TreeHashed(h, batch, messages) && LeafMessage(coreHash) in messages
    requires AllDigests(a.path) && 0 <= a.index < |batch| ==> ClimbHashed(h, LeafHash(h, coreHash), a.index, |batch|, Digests(a.path), messages)
    ensures VerifyAnchor(h, a, coreHash, Some(ChainRead(Root(h, batch), |batch|, blockTime))) == Anchored(true, blockTime) <==>
            && a.root == Root(h, batch) && a.treeSize == |batch|
            && 0 <= a.index < |batch| && batch[a.index] == coreHash
            && AllDigests(a.path) && Digests(a.path) == AuditPath(h, a.index, LeafHashes(h, batch))
  {
    hide Climb, AuditPath, TreeHash, TreeHashed, ClimbHashed;
    if AllDigests(a.path) {
      InclusionExact(h, batch, coreHash, a.index, Digests(a.path), messages);
    }
  }
}

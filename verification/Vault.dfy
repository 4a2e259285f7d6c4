/**
 The vault's chunked encryption (tools/src/vault): the chunk arithmetic and binary
 metadata of `format.ts`, the encoder of `fixture.ts`, and the streaming decryption
 of `decrypt.ts`. The key schedule and AES-GCM itself are parameters.
 */
module Vault {
  import opened ByteStrings
  import opened Primitives

  const CHUNK_BYTES: nat := 1_048_576
  const MAX_BYTES: nat := 500_000_000
  const TAG_BYTES: nat := 16

  /** The manifest's fields as bytes; the validated text forms determine them. */
  datatype Manifest = Manifest(objectId: Buffer, captureId: Buffer, orgKeyId: Buffer, noncePrefix: Buffer, plaintextBytes: nat, ciphertextHash: Buffer)
  {
    /** What validation lets through. */
    predicate Valid() {
      |objectId| == 16 && |captureId| == 16 && |orgKeyId| == 32 && |noncePrefix| == 8 && plaintextBytes <= MAX_BYTES
    }
  }

  // ---- chunk arithmetic ----

  function ChunkCount(m: Manifest): nat {
    var whole := (m.plaintextBytes + CHUNK_BYTES - 1) / CHUNK_BYTES;
    if whole > 1 then whole else 1
  }

  function CiphertextBytes(m: Manifest): nat {
    m.plaintextBytes + 16 * ChunkCount(m)
  }

  /** Negative past the last chunk. */
  function ChunkSize(m: Manifest, index: nat): int {
    var rest := m.plaintextBytes - index * CHUNK_BYTES;
    if CHUNK_BYTES < rest then CHUNK_BYTES else rest
  }

  /** Every chunk is a whole one but the last, which holds the rest and is empty only for an empty file. */
  lemma ChunkSizes(m: Manifest, index: nat)
    requires index < ChunkCount(m)
    ensures 0 <= ChunkSize(m, index) <= CHUNK_BYTES
    ensures index < ChunkCount(m) - 1 ==> ChunkSize(m, index) == CHUNK_BYTES
    ensures index == ChunkCount(m) - 1 ==> ChunkSize(m, index) == m.plaintextBytes - index * CHUNK_BYTES
    ensures ChunkSize(m, index) == 0 <==> m.plaintextBytes == 0
  {
  }

  /** Where the ciphertext of chunk `n` begins: behind the chunks before it and their tags. */
  function Position(m: Manifest, n: nat): nat
    requires n <= ChunkCount(m)
  {
    if n == 0 then 0
    else
      ChunkSizes(m, n - 1);
      Position(m, n - 1) + ChunkSize(m, n - 1) + TAG_BYTES
  }

  /** The plaintext before chunk `n`: whole chunks, up to the file's end. */
  function PlainStart(m: Manifest, n: nat): (start: nat)
    ensures start <= m.plaintextBytes
  {
    if n * CHUNK_BYTES < m.plaintextBytes then n * CHUNK_BYTES else m.plaintextBytes
  }

  lemma {:induction false} PositionIs(m: Manifest, n: nat)
    requires n <= ChunkCount(m)
    ensures Position(m, n) == PlainStart(m, n) + 16 * n
  {
    if n > 0 {
      PositionIs(m, n - 1);
    }
  }

  /** The chunks tile both files: each begins where the one before it ends. */
  lemma ChunksTile(m: Manifest, n: nat)
    requires n < ChunkCount(m)
    ensures PlainStart(m, n + 1) == PlainStart(m, n) + ChunkSize(m, n)
    ensures Position(m, n + 1) == Position(m, n) + ChunkSize(m, n) + 16
    ensures Position(m, n + 1) <= CiphertextBytes(m)
  {
    PositionIs(m, n + 1);
  }

  /** The chunk sizes sum to the plaintext's length, and the chunks' ciphertexts end where the whole ciphertext does. */
  lemma ChunksCover(m: Manifest)
    ensures PlainStart(m, 0) == 0 && PlainStart(m, ChunkCount(m)) == m.plaintextBytes
    ensures Position(m, 0) == 0 && Position(m, ChunkCount(m)) == CiphertextBytes(m)
  {
    PositionIs(m, ChunkCount(m));
  }

  // ---- metadata ----

  /** "vcap/1.0/vault" */
  const VAULT: Buffer := [0x76, 0x63, 0x61, 0x70, 0x2f, 0x31, 0x2e, 0x30, 0x2f, 0x76, 0x61, 0x75, 0x6c, 0x74]

  /** "/header" and "/chunk", each closed by a zero byte. */
  const HEADER_LABEL: Buffer := VAULT + [0x2f, 0x68, 0x65, 0x61, 0x64, 0x65, 0x72, 0]
  const CHUNK_LABEL: Buffer := VAULT + [0x2f, 0x63, 0x68, 0x75, 0x6e, 0x6b, 0]

  function Header(m: Manifest): Buffer {
    HEADER_LABEL + m.objectId + m.captureId + m.orgKeyId + m.noncePrefix + BigEndian(m.plaintextBytes, 8) + BigEndian(CHUNK_BYTES, 4)
  }

  function Nonce(m: Manifest, index: nat): Buffer {
    m.noncePrefix + BigEndian(index, 4)
  }

  function Aad(h: Hash, m: Manifest, index: nat): Buffer {
    CHUNK_LABEL + h(Header(m)) + BigEndian(index, 4) + [if index == ChunkCount(m) - 1 then 1 else 0]
  }

  /** Two manifests that differ in anything but the ciphertext's digest have different headers. */
  lemma HeaderInjective(m: Manifest, m': Manifest)
    requires m.Valid() && m'.Valid() && Header(m) == Header(m')
    ensures m == m'.(ciphertextHash := m.ciphertextHash)
  {
    var size, size' := BigEndian(m.plaintextBytes, 8), BigEndian(m'.plaintextBytes, 8);
    var a, a' := HEADER_LABEL + m.objectId, HEADER_LABEL + m'.objectId;
    var b, b' := a + m.captureId, a' + m'.captureId;
    var c, c' := b + m.orgKeyId, b' + m'.orgKeyId;
    var d, d' := c + m.noncePrefix, c' + m'.noncePrefix;
    SplitEqual(d + size, BigEndian(CHUNK_BYTES, 4), d' + size', BigEndian(CHUNK_BYTES, 4));
    SplitEqual(d, size, d', size');
    SplitEqual(c, m.noncePrefix, c', m'.noncePrefix);
    SplitEqual(b, m.orgKeyId, b', m'.orgKeyId);
    SplitEqual(a, m.captureId, a', m'.captureId);
    SplitEqual(HEADER_LABEL, m.objectId, HEADER_LABEL, m'.objectId);
    Widths();
    BigEndianInjective(m.plaintextBytes, m'.plaintextBytes, 8);
  }

  /** No two chunks of one file share a nonce. */
  lemma NoncesDistinct(m: Manifest, i: nat, j: nat)
    requires m.Valid() && i < ChunkCount(m) && j < ChunkCount(m) && Nonce(m, i) == Nonce(m, j)
    ensures i == j
  {
    SplitEqual(m.noncePrefix, BigEndian(i, 4), m.noncePrefix, BigEndian(j, 4));
    Widths();
    BigEndianInjective(i, j, 4);
  }

  /** The last byte of the associated data: 1 for exactly one chunk, the last. */
  predicate IsFinal(aad: Buffer) {
    |aad| > 0 && aad[|aad| - 1] == 1
  }

  lemma OneFinalChunk(h: Hash, m: Manifest)
    ensures forall i: nat | i < ChunkCount(m) :: IsFinal(Aad(h, m, i)) <==> i == ChunkCount(m) - 1
    ensures exists i: nat | i < ChunkCount(m) :: IsFinal(Aad(h, m, i))
  {
    assert IsFinal(Aad(h, m, ChunkCount(m) - 1));
  }

  // ---- the cipher and what was sealed with it ----

  /** AES-GCM under one key, over nonce, associated data and plaintext or ciphertext. */
  datatype Aead = Aead(seal: (Buffer, Buffer, Buffer) -> Buffer, open: (Buffer, Buffer, Buffer) -> Option<Buffer>)

  /** One file sealed under the key; `marked` is false for an encoder that never marks the final chunk. */
  datatype Sealing = Sealing(m: Manifest, plaintext: Buffer, marked: bool)
  {
    predicate Valid() {
      m.Valid() && |plaintext| == m.plaintextBytes
    }

    /** `subarray` stops at the end of the plaintext. */
    function Chunk(index: nat): Buffer
      requires Valid()
    {
      plaintext[PlainStart(m, index)..PlainStart(m, index + 1)]
    }

    function ChunkAad(h: Hash, index: nat): Buffer {
      CHUNK_LABEL + h(Header(m)) + BigEndian(index, 4) + [if marked && index == ChunkCount(m) - 1 then 1 else 0]
    }

    function SealedChunk(h: Hash, aead: Aead, index: nat): Buffer
      requires Valid()
    {
      aead.seal(Nonce(m, index), ChunkAad(h, index), Chunk(index))
    }

    /** The encoder's first `n` chunks, in order. */
    function Sealed(h: Hash, aead: Aead, n: nat): Buffer
      requires Valid()
    {
      if n == 0 then [] else Sealed(h, aead, n - 1) + SealedChunk(h, aead, n - 1)
    }

    function Ciphertext(h: Hash, aead: Aead): Buffer
      requires Valid()
    {
      Sealed(h, aead, ChunkCount(m))
    }
  }

  /** Opening undoes the sealing of this file's chunks, and a ciphertext is 16 bytes longer than its plaintext. */
  ghost predicate Opens(h: Hash, aead: Aead, s: Sealing)
    requires s.Valid()
  {
    forall index: nat | index < ChunkCount(s.m) ::
      && |s.SealedChunk(h, aead, index)| == |s.Chunk(index)| + TAG_BYTES
      && aead.open(Nonce(s.m, index), s.ChunkAad(h, index), s.SealedChunk(h, aead, index)) == Some(s.Chunk(index))
  }

  /** An ideal cipher: the files' chunks open, and what opens is one of them, as it was sealed. */
  ghost predicate SealedOnly(h: Hash, aead: Aead, files: iset<Sealing>) {
    && (forall s | s in files :: s.Valid() && Opens(h, aead, s))
    && forall nonce, aad, sealed | aead.open(nonce, aad, sealed).Some? ::
         exists s, index: nat | s in files && index < ChunkCount(s.m) ::
           nonce == Nonce(s.m, index) && aad == s.ChunkAad(h, index) && sealed == s.SealedChunk(h, aead, index)
  }

  // ---- decryption ----

  datatype Fault = LengthMismatch | Truncated | InvalidChunk | NotAuthentic | CiphertextMismatch

  datatype Decryption = Plain(bytes: Buffer) | Failed(fault: Fault)

  function DecryptChunk(h: Hash, aead: Aead, m: Manifest, index: nat, encrypted: Buffer): Decryption {
    if index >= ChunkCount(m) || |encrypted| != ChunkSize(m, index) + TAG_BYTES then Failed(InvalidChunk)
    else
      var plain := aead.open(Nonce(m, index), Aad(h, m, index), encrypted);
      if plain.None? then Failed(NotAuthentic) else Plain(plain.value)
  }

  function EncryptedChunk(m: Manifest, content: Buffer, index: nat): (chunk: Buffer)
    requires index < ChunkCount(m) && Position(m, index + 1) <= |content|
    ensures |chunk| == ChunkSize(m, index) + TAG_BYTES
  {
    ChunksTile(m, index);
    content[Position(m, index)..Position(m, index + 1)]
  }

  lemma PositionsAscend(m: Manifest, n: nat)
    requires 0 < n <= ChunkCount(m)
    ensures Position(m, n - 1) <= Position(m, n)
  {
    ChunksTile(m, n - 1);
  }

  /** The first `n` chunks, opened and put together, or what the first bad one fails of. */
  function Opened(h: Hash, aead: Aead, m: Manifest, content: Buffer, n: nat): Decryption
    requires n <= ChunkCount(m) && Position(m, n) <= |content|
  {
    if n == 0 then Plain([])
    else
      PositionsAscend(m, n);
      var before := Opened(h, aead, m, content, n - 1);
      if before.Failed? then before
      else
        var chunk := DecryptChunk(h, aead, m, n - 1, EncryptedChunk(m, content, n - 1));
        if chunk.Failed? then chunk else Plain(before.bytes + chunk.bytes)
  }

  /** What a ciphertext file decrypts to. */
  function Decrypted(h: Hash, aead: Aead, m: Manifest, content: Buffer): Decryption {
    if |content| != CiphertextBytes(m) then Failed(LengthMismatch)
    else
      ChunksCover(m);
      var plain := Opened(h, aead, m, content, ChunkCount(m));
      if plain.Plain? && h(content) != m.ciphertextHash then Failed(CiphertextMismatch) else plain
  }

  /** Chunk `i` of the ciphertext opens under its own nonce and associated data. */
  predicate ChunkOpens(h: Hash, aead: Aead, m: Manifest, content: Buffer, i: nat)
    requires i < ChunkCount(m) && Position(m, i + 1) <= |content|
  {
    aead.open(m.noncePrefix + BigEndian(i, 4), Aad(h, m, i), EncryptedChunk(m, content, i)).Some?
  }

  predicate ChunksOpen(h: Hash, aead: Aead, m: Manifest, content: Buffer, n: nat)
    requires n <= ChunkCount(m) && Position(m, n) <= |content|
    decreases n
  {
    n == 0 || (PositionsAscend(m, n); ChunksOpen(h, aead, m, content, n - 1) && ChunkOpens(h, aead, m, content, n - 1))
  }

  lemma {:induction false} OpenedExact(h: Hash, aead: Aead, m: Manifest, content: Buffer, n: nat)
    requires n <= ChunkCount(m) && Position(m, n) <= |content|
    ensures Opened(h, aead, m, content, n).Plain? <==> ChunksOpen(h, aead, m, content, n)
    ensures Opened(h, aead, m, content, n).Failed? ==> Opened(h, aead, m, content, n).fault == NotAuthentic
  {
    hide Aad, Position, ChunkSize, EncryptedChunk;
    if n > 0 {
      PositionsAscend(m, n);
      OpenedExact(h, aead, m, content, n - 1);
    }
  }

  predicate AllOpen(h: Hash, aead: Aead, m: Manifest, content: Buffer)
    requires |content| == CiphertextBytes(m)
  {
    ChunksCover(m);
    ChunksOpen(h, aead, m, content, ChunkCount(m))
  }

  /** Accepted exactly when the length fits, every chunk opens in its place and the digest is the manifest's; and each fault says which of these failed first. */
  lemma DecryptedExact(h: Hash, aead: Aead, m: Manifest, content: Buffer)
    ensures var result := Decrypted(h, aead, m, content);
            if |content| != m.plaintextBytes + 16 * ChunkCount(m) then result == Failed(LengthMismatch)
            else if !AllOpen(h, aead, m, content) then result == Failed(NotAuthentic)
            else if h(content) != m.ciphertextHash then result == Failed(CiphertextMismatch)
            else result.Plain?
  {
    ChunksCover(m);
    hide Opened, ChunksOpen, ChunkCount, Position;
    if |content| == CiphertextBytes(m) {
      OpenedExact(h, aead, m, content, ChunkCount(m));
    }
  }

  lemma {:induction false} SealedLength(h: Hash, aead: Aead, s: Sealing, n: nat)
    requires s.Valid() && Opens(h, aead, s) && n <= ChunkCount(s.m)
    ensures |s.Sealed(h, aead, n)| == Position(s.m, n)
  {
    if n > 0 {
      SealedLength(h, aead, s, n - 1);
      ChunksTile(s.m, n - 1);
      assert |s.Chunk(n - 1)| == ChunkSize(s.m, n - 1);
    }
  }

  /** The chunks sealed first are a prefix of the whole. */
  lemma {:induction false} SealedPrefix(h: Hash, aead: Aead, s: Sealing, n: nat, all: nat)
    requires s.Valid() && n <= all
    ensures s.Sealed(h, aead, n) <= s.Sealed(h, aead, all)
    decreases all
  {
    if n < all {
      SealedPrefix(h, aead, s, n, all - 1);
    }
  }

  lemma SliceOfPrefix<T>(whole: seq<T>, before: seq<T>, part: seq<T>)
    requires before + part <= whole
    ensures whole[|before|..|before| + |part|] == part
  {
    assert (before + part)[|before|..] == part;
  }

  /** Each chunk stands in the ciphertext where the decoder looks for it. */
  lemma SealedAt(h: Hash, aead: Aead, s: Sealing, index: nat)
    requires s.Valid() && Opens(h, aead, s) && index < ChunkCount(s.m)
    ensures |s.Ciphertext(h, aead)| == CiphertextBytes(s.m) && Position(s.m, index + 1) <= CiphertextBytes(s.m)
    ensures EncryptedChunk(s.m, s.Ciphertext(h, aead), index) == s.SealedChunk(h, aead, index)
  {
    hide ChunkCount, ChunkSize, PlainStart, CiphertextBytes, Sealing.Chunk, Sealing.ChunkAad, Nonce, Header, Sealing.SealedChunk;
    ChunksCover(s.m);
    ChunksTile(s.m, index);
    SealedLength(h, aead, s, ChunkCount(s.m));
    SealedLength(h, aead, s, index);
    SealedLength(h, aead, s, index + 1);
    SealedPrefix(h, aead, s, index + 1, ChunkCount(s.m));
    assert s.Sealed(h, aead, index + 1) == s.Sealed(h, aead, index) + s.SealedChunk(h, aead, index);
    hide Position, Sealing.Sealed;
    SliceOfPrefix(s.Sealed(h, aead, ChunkCount(s.m)), s.Sealed(h, aead, index), s.SealedChunk(h, aead, index));
  }

  lemma ChunkLength(s: Sealing, index: nat)
    requires s.Valid() && index < ChunkCount(s.m)
    ensures |s.Chunk(index)| == ChunkSize(s.m, index)
    ensures s.plaintext[..PlainStart(s.m, index)] + s.Chunk(index) == s.plaintext[..PlainStart(s.m, index + 1)]
  {
    ChunksTile(s.m, index);
  }

  /** The chunk arithmetic reads nothing of a manifest but its length. */
  lemma {:induction false} PositionAgrees(m: Manifest, m': Manifest, n: nat)
    requires m.plaintextBytes == m'.plaintextBytes && n <= ChunkCount(m)
    ensures Position(m, n) == Position(m', n)
  {
    if n > 0 {
      PositionAgrees(m, m', n - 1);
    }
  }

  lemma OpensChunk(h: Hash, aead: Aead, s: Sealing, m: Manifest, index: nat)
    requires s.Valid() && s.marked && Opens(h, aead, s) && index < ChunkCount(s.m)
    requires Header(m) == Header(s.m) && m.noncePrefix == s.m.noncePrefix && m.plaintextBytes == s.m.plaintextBytes
    requires index < ChunkCount(m) && Position(m, index + 1) <= |s.Ciphertext(h, aead)|
    ensures DecryptChunk(h, aead, m, index, EncryptedChunk(m, s.Ciphertext(h, aead), index)) == Plain(s.Chunk(index))
  {
    hide Header, PlainStart, CiphertextBytes, Sealing.Ciphertext, Sealing.Chunk, Position;
    SealedAt(h, aead, s, index);
    ChunkLength(s, index);
    PositionAgrees(m, s.m, index);
    PositionAgrees(m, s.m, index + 1);
    assert EncryptedChunk(m, s.Ciphertext(h, aead), index) == s.SealedChunk(h, aead, index);
  }

  lemma PlainStartsAtZero(m: Manifest)
    ensures PlainStart(m, 0) == 0
  {
  }

  lemma {:induction false} OpensSealed(h: Hash, aead: Aead, s: Sealing, m: Manifest, n: nat)
    requires s.Valid() && s.marked && Opens(h, aead, s) && n <= ChunkCount(s.m)
    requires Header(m) == Header(s.m) && m.noncePrefix == s.m.noncePrefix && m.plaintextBytes == s.m.plaintextBytes
    requires n <= ChunkCount(m) && Position(m, n) <= |s.Ciphertext(h, aead)|
    ensures Opened(h, aead, m, s.Ciphertext(h, aead), n) == Plain(s.plaintext[..PlainStart(s.m, n)])
  {
    hide Header, ChunkCount, PlainStart, CiphertextBytes, Sealing.Ciphertext, DecryptChunk, EncryptedChunk, Sealing.Chunk;
    if n == 0 {
      PlainStartsAtZero(s.m);
    } else {
      PositionsAscend(m, n);
      OpensSealed(h, aead, s, m, n - 1);
      OpensChunk(h, aead, s, m, n - 1);
      ChunkLength(s, n - 1);
    }
  }

  /** Decryption inverts the encoder, for every length from 0 to the maximum. */
  lemma DecryptedSealed(h: Hash, aead: Aead, s: Sealing, m: Manifest)
    requires s.Valid() && s.marked && Opens(h, aead, s)
    requires m == s.m.(ciphertextHash := h(s.Ciphertext(h, aead)))
    ensures Decrypted(h, aead, m, s.Ciphertext(h, aead)) == Plain(s.plaintext)
  {
    SealedLength(h, aead, s, ChunkCount(s.m));
    ChunksCover(s.m);
    PlainAgrees(m, s.m, 0);
    ChunksCover(m);
    OpensSealed(h, aead, s, m, ChunkCount(s.m));
    assert s.plaintext[..|s.plaintext|] == s.plaintext;
  }

  // ---- soundness ----

  /** The sealer gave no two files one header. */
  ghost predicate HeadersApart(files: iset<Sealing>) {
    forall s, t | s in files && t in files && Header(s.m) == Header(t.m) :: s == t
  }

  /** The headers hashed: the received manifest's and those of the files sealed. */
  ghost predicate HeadersHashed(m: Manifest, files: iset<Sealing>, messages: iset<Buffer>) {
    Header(m) in messages && forall s | s in files :: Header(s.m) in messages
  }

  /** Associated data names one header, one place and whether it is the last. */
  lemma AadExact(h: Hash, m: Manifest, index: nat, s: Sealing, place: nat, messages: iset<Buffer>)
    requires m.Valid() && s.Valid() && index < ChunkCount(m) && place < ChunkCount(s.m)
    requires InjectiveOn(h, messages) && Header(m) in messages && Header(s.m) in messages
    requires Aad(h, m, index) == s.ChunkAad(h, place)
    ensures Header(m) == Header(s.m) && m == s.m.(ciphertextHash := m.ciphertextHash)
    ensures index == place && (index == ChunkCount(m) - 1 ==> s.marked)
  {
    hide Header, Manifest.Valid;
    var a, b := CHUNK_LABEL + h(Header(m)), CHUNK_LABEL + h(Header(s.m));
    var i, j := BigEndian(index, 4), BigEndian(place, 4);
    var last: Buffer := [if index == ChunkCount(m) - 1 then 1 else 0];
    var last': Buffer := [if s.marked && place == ChunkCount(s.m) - 1 then 1 else 0];
    SplitEqual(a + i, last, b + j, last');
    SplitEqual(a, i, b, j);
    SplitEqual(CHUNK_LABEL, h(Header(m)), CHUNK_LABEL, h(Header(s.m)));
    HeaderInjective(m, s.m);
    FewChunks(m, index);
    FewChunks(s.m, place);
    BigEndianInjective(index, place, 4);
  }

  lemma FewChunks(m: Manifest, index: nat)
    requires m.Valid() && index < ChunkCount(m)
    ensures index < Pow256(4)
  {
    Widths();
  }

  lemma ChunkIsSealed(h: Hash, aead: Aead, m: Manifest, index: nat, encrypted: Buffer, files: iset<Sealing>, messages: iset<Buffer>) returns (s: Sealing)
    requires m.Valid() && SealedOnly(h, aead, files)
    requires InjectiveOn(h, messages) && HeadersHashed(m, files, messages)
    requires DecryptChunk(h, aead, m, index, encrypted).Plain?
    ensures s in files && s.Valid() && Opens(h, aead, s) && Header(m) == Header(s.m) && m == s.m.(ciphertextHash := m.ciphertextHash)
    ensures encrypted == s.SealedChunk(h, aead, index) && |encrypted| == ChunkSize(m, index) + TAG_BYTES
    ensures index == ChunkCount(m) - 1 ==> s.marked
  {
    hide Header, Manifest.Valid, ChunkCount, Sealing.ChunkAad, Nonce, Sealing.SealedChunk, Aad;
    var nonce, aad := Nonce(m, index), Aad(h, m, index);
    var found: Sealing, place: nat :| found in files && place < ChunkCount(found.m) &&
      nonce == Nonce(found.m, place) && aad == found.ChunkAad(h, place) && encrypted == found.SealedChunk(h, aead, place);
    s := found;
    AadExact(h, m, index, s, place, messages);
  }

  lemma OpensToPlain(h: Hash, aead: Aead, m: Manifest, s: Sealing, index: nat)
    requires s.Valid() && s.marked && Opens(h, aead, s) && index < ChunkCount(s.m)
    requires m == s.m.(ciphertextHash := m.ciphertextHash)
    requires |s.SealedChunk(h, aead, index)| == ChunkSize(m, index) + TAG_BYTES
    ensures DecryptChunk(h, aead, m, index, s.SealedChunk(h, aead, index)) == Plain(s.Chunk(index))
  {
    assert Header(m) == Header(s.m);
    hide Header, Sealing.Chunk;
  }

  /** The chunks opened so far are one sealed file's, each in its place. */
  lemma {:induction false} AcceptedUpTo(h: Hash, aead: Aead, m: Manifest, content: Buffer, n: nat, s: Sealing, files: iset<Sealing>, messages: iset<Buffer>)
    requires m.Valid() && SealedOnly(h, aead, files) && HeadersApart(files)
    requires InjectiveOn(h, messages) && HeadersHashed(m, files, messages)
    requires s in files && s.Valid() && s.marked && Header(m) == Header(s.m) && m == s.m.(ciphertextHash := m.ciphertextHash)
    requires n <= ChunkCount(m) && Position(m, n) <= |content| && Opened(h, aead, m, content, n).Plain?
    ensures content[..Position(m, n)] == s.Sealed(h, aead, n)
    ensures Opened(h, aead, m, content, n) == Plain(s.plaintext[..PlainStart(m, n)])
  {
    hide Header, Manifest.Valid, ChunkCount, PlainStart, DecryptChunk, CiphertextBytes, SealedOnly, HeadersHashed, InjectiveOn, Sealing.Chunk, Sealing.SealedChunk;
    if n == 0 {
      PlainStartsAtZero(m);
    } else {
      PositionsAscend(m, n);
      PlainAgrees(m, s.m, n);
      PlainAgrees(m, s.m, n - 1);
      AcceptedUpTo(h, aead, m, content, n - 1, s, files, messages);
      var encrypted := EncryptedChunk(m, content, n - 1);
      var t := ChunkIsSealed(h, aead, m, n - 1, encrypted, files, messages);
      assert t == s;
      ChunksTile(m, n - 1);
      OpensToPlain(h, aead, m, s, n - 1);
      ChunkLength(s, n - 1);
      assert content[..Position(m, n)] == content[..Position(m, n - 1)] + encrypted;
    }
  }

  lemma PlainAgrees(m: Manifest, m': Manifest, n: nat)
    requires m.plaintextBytes == m'.plaintextBytes
    ensures PlainStart(m, n) == PlainStart(m', n) && ChunkCount(m) == ChunkCount(m')
  {
  }

  /**
   Under an ideal cipher, an accepted ciphertext is one the sealer made, whole and
   in order, from an encoder that marked its final chunk; what comes out is its
   plaintext. No chunk is dropped, repeated, moved or taken from another file.
   */
  lemma AcceptedIsSealed(h: Hash, aead: Aead, m: Manifest, content: Buffer, files: iset<Sealing>, messages: iset<Buffer>) returns (s: Sealing)
    requires m.Valid() && SealedOnly(h, aead, files) && HeadersApart(files)
    requires InjectiveOn(h, messages) && HeadersHashed(m, files, messages)
    requires Decrypted(h, aead, m, content).Plain?
    ensures s in files && s.Valid() && s.marked && m == s.m.(ciphertextHash := m.ciphertextHash)
    ensures content == s.Ciphertext(h, aead) && Decrypted(h, aead, m, content) == Plain(s.plaintext)
  {
    hide Header, Manifest.Valid, PlainStart, DecryptChunk, SealedOnly, HeadersHashed, InjectiveOn, Sealing.SealedChunk, HeadersApart, CiphertextBytes, Position;
    var last := ChunkCount(m) - 1;
    ChunksCover(m);
    s := ChunkIsSealed(h, aead, m, last, EncryptedChunk(m, content, last), files, messages);
    AcceptedUpTo(h, aead, m, content, last + 1, s, files, messages);
    PlainAgrees(m, s.m, 0);
    assert content[..|content|] == content;
    assert s.plaintext[..|s.plaintext|] == s.plaintext;
  }

  // ---- the streaming decryption ----

  /** The ciphertext file. Unless it is `quiet`, someone else may change it between any two calls. */
  class Input {
    const quiet: bool
    var content: Buffer

    constructor (content: Buffer, quiet: bool)
      ensures this.content == content && this.quiet == quiet
    {
      this.content := content;
      this.quiet := quiet;
    }

    method Stat() returns (size: nat)
      modifies this
      ensures quiet ==> content == old(content)
      ensures size == |content|
    {
      Disturb();
      size := |content|;
    }

    method Disturb()
      modifies this
      ensures quiet ==> content == old(content)
    {
      var other: Buffer := *;
      if !quiet {
        content := other;
      }
    }

    /** Fills part of `buffer` from `start` on; a read may be short, and is empty only at the file's end. */
    method Read(buffer: array<Byte>, start: nat, position: nat) returns (bytesRead: nat)
      requires start < buffer.Length
      modifies this, buffer
      ensures quiet ==> content == old(content)
      ensures bytesRead <= buffer.Length - start
      ensures bytesRead == 0 <==> position >= |content|
      ensures bytesRead > 0 ==> position + bytesRead <= |content| && buffer[start..start + bytesRead] == content[position..position + bytesRead]
      ensures buffer[..start] == old(buffer[..start])
    {
      Disturb();
      if position >= |content| {
        return 0;
      }
      bytesRead :| 1 <= bytesRead <= buffer.Length - start && position + bytesRead <= |content|;
      var now := content;
      for i := 0 to bytesRead
        modifies buffer
        invariant buffer[start..start + i] == now[position..position + i]
        invariant buffer[..start] == old(buffer[..start])
      {
        ghost var filled := buffer[start..start + i];
        buffer[start + i] := now[position + i];
        assert buffer[start..start + i + 1] == filled + [now[position + i]];
        Join(now, position, position + i, position + i + 1);
      }
    }
  }

  /** What is opened so far depends only on the bytes read so far. */
  lemma {:induction false} OpenedPrefix(h: Hash, aead: Aead, m: Manifest, content: Buffer, more: Buffer, n: nat)
    requires n <= ChunkCount(m) && Position(m, n) <= |content|
    ensures Opened(h, aead, m, content + more, n) == Opened(h, aead, m, content, n)
  {
    hide ChunkCount, DecryptChunk, ChunkSize;
    if n > 0 {
      PositionsAscend(m, n);
      OpenedPrefix(h, aead, m, content, more, n - 1);
      assert EncryptedChunk(m, content + more, n - 1) == EncryptedChunk(m, content, n - 1);
    }
  }

  /** A chunk that fails decides the whole file. */
  lemma {:induction false} FailedStays(h: Hash, aead: Aead, m: Manifest, content: Buffer, n: nat, all: nat)
    requires n <= all <= ChunkCount(m) && Position(m, all) <= |content| && Position(m, n) <= |content|
    requires Opened(h, aead, m, content, n).Failed?
    ensures Opened(h, aead, m, content, all) == Opened(h, aead, m, content, n)
    decreases all
  {
    hide ChunkCount, DecryptChunk, EncryptedChunk;
    if n < all {
      PositionsAscend(m, all);
      FailedStays(h, aead, m, content, n, all - 1);
    }
  }

  /** One more chunk behind those read. */
  lemma OpenedNext(h: Hash, aead: Aead, m: Manifest, content: Buffer, encrypted: Buffer, index: nat)
    requires index < ChunkCount(m) && |content| == Position(m, index) && |encrypted| == ChunkSize(m, index) + TAG_BYTES
    requires Opened(h, aead, m, content, index).Plain?
    ensures |content + encrypted| == Position(m, index + 1)
    ensures var chunk := DecryptChunk(h, aead, m, index, encrypted);
            Opened(h, aead, m, content + encrypted, index + 1)
            == if chunk.Failed? then chunk else Plain(Opened(h, aead, m, content, index).bytes + chunk.bytes)
  {
    hide ChunkCount, DecryptChunk;
    ChunksTile(m, index);
    OpenedPrefix(h, aead, m, content, encrypted, index);
    assert EncryptedChunk(m, content + encrypted, index) == encrypted;
  }

  lemma Join<T>(s: seq<T>, a: nat, b: nat, c: nat)
    requires a <= b <= c <= |s|
    ensures s[a..c] == s[a..b] + s[b..c]
  {
  }

  /** A whole chunk into a fresh buffer, however the reads are cut. */
  method ReadChunk(input: Input, position: nat, length: nat) returns (encrypted: array<Byte>, complete: bool)
    modifies input
    ensures fresh(encrypted) && encrypted.Length == length
    ensures input.quiet ==> input.content == old(input.content)
    ensures input.quiet ==> (complete <==> position + length <= |input.content| || length == 0)
    ensures input.quiet && complete && length > 0 ==> encrypted[..] == input.content[position..position + length]
  {
    encrypted := new Byte[length](_ => 0);
    var received := 0;
    while received < encrypted.Length
      invariant received <= encrypted.Length
      invariant input.quiet ==> input.content == old(input.content)
      invariant input.quiet && received > 0 ==> position + received <= |input.content| && encrypted[..received] == input.content[position..position + received]
    {
      ghost var filled := encrypted[..received];
      var bytesRead := input.Read(encrypted, received, position + received);
      if bytesRead == 0 {
        return encrypted, false;
      }
      assert encrypted[..received + bytesRead] == filled + encrypted[received..received + bytesRead];
      Join(input.content, position, position + received, position + received + bytesRead);
      received := received + bytesRead;
    }
    assert encrypted[..] == encrypted[..received];
    complete := true;
  }

  /**
   Reads, opens and digests chunk after chunk, and publishes only at the end. What is
   published is the decryption of the bytes read, even when the file changes under the
   reader; of a file left alone the result is exactly its decryption.
   */
  method DecryptFile(h: Hash, aead: Aead, m: Manifest, input: Input) returns (result: Decryption, ghost seen: Buffer)
    requires m.Valid()
    modifies input
    ensures result.Plain? ==> Decrypted(h, aead, m, seen) == result
    ensures input.quiet ==> result == Decrypted(h, aead, m, old(input.content))
  {
    hide Opened, ChunkSize, DecryptChunk;
    seen := [];
    ghost var original := input.content;
    var size := input.Stat();
    if size != CiphertextBytes(m) {
      return Failed(LengthMismatch), seen;
    }
    var output: Buffer := [];
    var digested: Buffer := [];
    var position := 0;
    ChunksCover(m);
    OpenedNothing(h, aead, m);
    for index := 0 to ChunkCount(m)
      invariant input.quiet ==> input.content == original && |original| == CiphertextBytes(m)
      invariant position == Position(m, index) == |digested| && seen == digested
      invariant Opened(h, aead, m, seen, index) == Plain(output)
      invariant input.quiet ==> seen <= original
    {
      ChunkSizes(m, index);
      ChunksTile(m, index);
      var encrypted, complete := ReadChunk(input, position, ChunkSize(m, index) + TAG_BYTES);
      if !complete {
        return Failed(Truncated), seen;
      }
      ghost var before := digested;
      position := position + encrypted.Length;
      digested := digested + encrypted[..];
      seen := digested;
      var plain := DecryptChunk(h, aead, m, index, encrypted[..]);
      OpenedNext(h, aead, m, before, encrypted[..], index);
      if plain.Failed? {
        if input.quiet {
          FailsAsRead(h, aead, m, original, seen, index + 1);
        }
        return plain, seen;
      }
      output := output + plain.bytes;
    }
    ChunksCover(m);
    assert input.quiet ==> seen == original;
    var last := input.Stat();
    if last != position || h(digested) != m.ciphertextHash {
      return Failed(CiphertextMismatch), seen;
    }
    result := Plain(output);
  }

  lemma OpenedNothing(h: Hash, aead: Aead, m: Manifest)
    ensures Opened(h, aead, m, [], 0) == Plain([])
  {
  }

  lemma FailsAsRead(h: Hash, aead: Aead, m: Manifest, original: Buffer, seen: Buffer, n: nat)
    requires |original| == CiphertextBytes(m) && seen <= original
    requires n <= ChunkCount(m) && |seen| == Position(m, n) && Opened(h, aead, m, seen, n).Failed?
    ensures Decrypted(h, aead, m, original) == Opened(h, aead, m, seen, n)
  {
    hide Opened;
    ChunksCover(m);
    assert original == seen + original[|seen|..];
    OpenedPrefix(h, aead, m, seen, original[|seen|..], n);
    FailedStays(h, aead, m, original, n, ChunkCount(m));
  }
}

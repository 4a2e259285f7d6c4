/**
 Where each field stands in the messages that are signed and hashed (tools/src/segments.ts,
 tools/src/registry.ts, tools/src/timing.ts, tools/src/vault/format.ts): a reader of the
 bytes finds every value at its place, and nothing else is there.
 */
module Layouts {
  import opened ByteStrings
  import opened Primitives
  import Merkle
  import Segments
  import Registry
  import opened Timing
  import Vault

  /** The bytes of an ASCII text; any other character counts as zero. */
  function Ascii(s: string): Buffer {
    seq(|s|, i requires 0 <= i < |s| => if (s[i] as int) < 128 then s[i] as int else 0)
  }

  lemma Numbers(a: nat, b: nat)
    requires a < Pow256(8) && b < Pow256(4)
    ensures ReadBigEndian(BigEndian(a, 8)) == a && ReadBigEndian(BigEndian(b, 4)) == b
  {
    ReadWritten(a, 8);
    ReadWritten(b, 4);
  }

  /** A leaf is told from a pair of digests by its first byte. */
  lemma TreeLayout(data: Buffer, left: Digest, right: Digest)
    ensures var leaf, node := Merkle.LeafMessage(data), Merkle.NodeMessage(left, right);
            && leaf[0] == 0 && leaf[1..] == data
            && |node| == 65 && node[0] == 1 && node[1..33] == left && node[33..] == right
  {
  }

  lemma SegmentLayout(captureId: Buffer, index: int, contentHash: Buffer, prevLink: Buffer)
    requires Segments.SegmentMessage(captureId, index, contentHash, prevLink).Some?
    ensures var m := Segments.SegmentMessage(captureId, index, contentHash, prevLink).value;
            && |m| == 96 && m[..12] == Ascii("vcap/1.0/seg") && m[12..28] == captureId && ReadBigEndian(m[28..32]) == index
            && m[32..64] == contentHash && m[64..] == prevLink
  {
    var m := Segments.SegmentMessage(captureId, index, contentHash, prevLink).value;
    Widths();
    Numbers(0, index);
    hide BigEndian, ReadBigEndian, Pow256;
    assert m[28..32] == BigEndian(index, 4);
  }

  lemma TreeHeadLayout(treeSize: int, timestamp: int, root: Digest)
    requires Registry.TreeHeadMessage(treeSize, timestamp, root).Some?
    ensures var m := Registry.TreeHeadMessage(treeSize, timestamp, root).value;
            && |m| == 60 && m[..12] == Ascii("vcap/1.0/sth") && ReadBigEndian(m[12..20]) == treeSize && ReadBigEndian(m[20..28]) == timestamp
            && m[28..] == root
  {
    var m := Registry.TreeHeadMessage(treeSize, timestamp, root).value;
    Widths();
    Numbers(treeSize, 0);
    Numbers(timestamp, 0);
    hide BigEndian, ReadBigEndian, Pow256;
    assert m[12..20] == BigEndian(treeSize, 8) && m[20..28] == BigEndian(timestamp, 8);
  }

  lemma KeyStatusLayout(keyId: Buffer, at: int, treeSize: int, status: Byte)
    requires |keyId| == 32 && Registry.KeyStatusMessage(keyId, at, treeSize, status).Some?
    ensures var m := Registry.KeyStatusMessage(keyId, at, treeSize, status).value;
            && |m| == 64 && m[..15] == Ascii("vcap/1.0/status") && m[15..47] == keyId
            && ReadBigEndian(m[47..55]) == at && ReadBigEndian(m[55..63]) == treeSize && m[63] == status
  {
    var m := Registry.KeyStatusMessage(keyId, at, treeSize, status).value;
    Widths();
    Numbers(at, 0);
    Numbers(treeSize, 0);
    hide BigEndian, ReadBigEndian, Pow256;
    assert m[47..55] == BigEndian(at, 8) && m[55..63] == BigEndian(treeSize, 8);
  }

  lemma SnapshotLayout(core: Buffer, entries: Buffer, fetchedAt: int)
    requires |core| == 32 && Registry.AttestationStatusMessage(core, entries, fetchedAt).Some?
    ensures var list := Registry.AttestationStatusMessage(core, entries, fetchedAt).value;
            && |list| == 67 + |entries| && list[..27] == Ascii("vcap/1.0/attestation-status") && list[27..59] == core
            && list[59..59 + |entries|] == entries && ReadBigEndian(list[59 + |entries|..]) == fetchedAt
  {
    StatusLabel();
    FetchedField(core, entries, fetchedAt);
    FourFields(Registry.ATTESTATION_STATUS, core, entries, BigEndian(fetchedAt, 8));
    Widths();
    Numbers(fetchedAt, 0);
    hide *;
  }

  lemma StatusLabel()
    ensures Registry.ATTESTATION_STATUS == Ascii("vcap/1.0/attestation-status") && |Registry.ATTESTATION_STATUS| == 27
  {
  }

  lemma FetchedField(core: Buffer, entries: Buffer, fetchedAt: int)
    requires Registry.AttestationStatusMessage(core, entries, fetchedAt).Some?
    ensures 0 <= fetchedAt < Pow256(8)
    ensures Registry.AttestationStatusMessage(core, entries, fetchedAt).value == Registry.ATTESTATION_STATUS + core + entries + BigEndian(fetchedAt, 8)
  {
  }

  lemma IntegrityLayout(core: Buffer, body: Buffer)
    requires |core| == 32
    ensures var device := Registry.IntegrityMessage(core, body);
            device[..18] == Ascii("vcap/1.0/integrity") && device[18..50] == core && device[50..] == body
  {
    assert Registry.INTEGRITY == Ascii("vcap/1.0/integrity");
    FourFields(Registry.INTEGRITY, core, body, []);
    assert Registry.INTEGRITY + core + body + [] == Registry.INTEGRITY + core + body;
    assert Registry.IntegrityMessage(core, body)[50..50 + |body|] == Registry.IntegrityMessage(core, body)[50..];
  }

  lemma FourFields(a: Buffer, b: Buffer, c: Buffer, d: Buffer)
    ensures var m := a + b + c + d;
            && |m| == |a| + |b| + |c| + |d| && m[..|a|] == a && m[|a|..|a| + |b|] == b
            && m[|a| + |b|..|a| + |b| + |c|] == c && m[|a| + |b| + |c|..] == d
  {
  }

  /** A message exists exactly when its numbers fit their fields. */
  lemma FitsExact(n: int, t: int, root: Digest, keyId: Buffer, status: Byte, core: Buffer, entries: Buffer)
    ensures Registry.TreeHeadMessage(n, t, root).Some? <==> 0 <= n < 0x1_0000_0000_0000_0000 && 0 <= t < 0x1_0000_0000_0000_0000
    ensures Registry.KeyStatusMessage(keyId, t, n, status).Some? <==> 0 <= n < 0x1_0000_0000_0000_0000 && 0 <= t < 0x1_0000_0000_0000_0000
    ensures Registry.AttestationStatusMessage(core, entries, t).Some? <==> 0 <= t < 0x1_0000_0000_0000_0000
  {
    Widths();
  }

  /** A timing record exists exactly when counts and durations fit 32 bits, times and offsets 64 bits with a sign, and the end 64 without. */
  lemma RecordExists(t: TimingValues)
    requires t.Paired()
    ensures TimingRecord(t).Some? <==>
            && |t.videoDts| < 0x1_0000_0000 && |t.audioDts| < 0x1_0000_0000 && 0 <= t.videoEnd < 0x1_0000_0000_0000_0000
            && (forall i | 0 <= i < |t.videoDts| ::
                  && -0x8000_0000_0000_0000 <= t.videoDts[i] < 0x8000_0000_0000_0000 && -0x8000_0000_0000_0000 <= t.videoCts[i] < 0x8000_0000_0000_0000)
            && forall j | 0 <= j < |t.audioDts| :: -0x8000_0000_0000_0000 <= t.audioDts[j] < 0x8000_0000_0000_0000 && 0 <= t.audioDur[j] < 0x1_0000_0000
  {
    hide PackVideo, PackAudio;
  }

  // ---- the timing record ----

  /** The 64-bit field at `at`, in two's complement. */
  function SignedAt(b: Buffer, at: nat): int
    requires at + 8 <= |b|
  {
    var value: int := ReadBigEndian(b[at..at + 8]);
    if value >= TWO_63 then value - TWO_64 else value
  }

  lemma SignedReads(v: int)
    requires IsInt64(v)
    ensures SignedAt(Int64(v), 0) == v
  {
    Widths();
    ReadWritten(if v < 0 then v + TWO_64 else v, 8);
    assert Int64(v)[0..8] == Int64(v);
  }

  /** A field of a longer buffer reads as it stands. */
  lemma FieldAt(b: Buffer, at: nat, before: Buffer, v: int, after: Buffer)
    requires IsInt64(v) && b == before + Int64(v) + after && at == |before|
    ensures at + 8 <= |b| && SignedAt(b, at) == v
  {
    SignedReads(v);
    hide ReadBigEndian, BigEndian;
    assert b[at..at + 8] == Int64(v) && Int64(v)[0..8] == Int64(v);
  }

  /** Behind a head, a field reads as it does without it. */
  lemma Behind(head: Buffer, rest: Buffer, at: nat)
    requires at + 8 <= |rest|
    ensures SignedAt(head + rest, |head| + at) == SignedAt(rest, at)
  {
    assert (head + rest)[|head| + at..|head| + at + 8] == rest[at..at + 8];
  }

  lemma {:induction false} VideoAt(dts: seq<int>, cts: seq<int>, i: nat)
    requires |dts| == |cts| && AllInt64(dts) && AllInt64(cts) && i < |dts|
    ensures |PackVideo(dts, cts)| == 16 * |dts|
    ensures SignedAt(PackVideo(dts, cts), 16 * i) == dts[i] && SignedAt(PackVideo(dts, cts), 16 * i + 8) == cts[i]
  {
    VideoLength(dts, cts);
    VideoLength(dts[1..], cts[1..]);
    var rest := PackVideo(dts[1..], cts[1..]);
    var head := Int64(dts[0]) + Int64(cts[0]);
    assert PackVideo(dts, cts) == head + rest;
    hide SignedAt, PackVideo, Int64;
    if i == 0 {
      FieldAt(head + rest, 0, [], dts[0], Int64(cts[0]) + rest);
      FieldAt(head + rest, 8, Int64(dts[0]), cts[0], rest);
    } else {
      VideoAt(dts[1..], cts[1..], i - 1);
      Behind(head, rest, 16 * (i - 1));
      Behind(head, rest, 16 * (i - 1) + 8);
    }
  }

  lemma {:induction false} VideoLength(dts: seq<int>, cts: seq<int>)
    requires |dts| == |cts| && AllInt64(dts) && AllInt64(cts)
    ensures |PackVideo(dts, cts)| == 16 * |dts|
  {
    if |dts| > 0 {
      VideoLength(dts[1..], cts[1..]);
    }
  }

  /** The unsigned 64-bit field at `at`. */
  function WordAt(b: Buffer, at: nat): nat
    requires at + 8 <= |b|
  {
    ReadBigEndian(b[at..at + 8])
  }

  /** The 32-bit field at `at`. */
  function CountAt(b: Buffer, at: nat): nat
    requires at + 4 <= |b|
  {
    ReadBigEndian(b[at..at + 4])
  }

  lemma CountIs(b: Buffer, at: nat, before: Buffer, v: int, after: Buffer)
    requires IsUint32(v) && b == before + Uint32(v) + after && at == |before|
    ensures at + 4 <= |b| && CountAt(b, at) == v
  {
    Widths();
    ReadWritten(v, 4);
    hide ReadBigEndian, BigEndian, Pow256;
    assert b[at..at + 4] == Uint32(v);
  }

  lemma CountBehind(head: Buffer, rest: Buffer, at: nat)
    requires at + 4 <= |rest|
    ensures CountAt(head + rest, |head| + at) == CountAt(rest, at)
  {
    assert (head + rest)[|head| + at..|head| + at + 4] == rest[at..at + 4];
  }

  lemma {:induction false} AudioAt(dts: seq<int>, dur: seq<int>, i: nat)
    requires |dts| == |dur| && AllInt64(dts) && AllUint32(dur) && i < |dts|
    ensures |PackAudio(dts, dur)| == 12 * |dts|
    ensures SignedAt(PackAudio(dts, dur), 12 * i) == dts[i] && CountAt(PackAudio(dts, dur), 12 * i + 8) == dur[i]
  {
    AudioLength(dts, dur);
    AudioLength(dts[1..], dur[1..]);
    var rest := PackAudio(dts[1..], dur[1..]);
    var head := Int64(dts[0]) + Uint32(dur[0]);
    assert PackAudio(dts, dur) == head + rest;
    hide SignedAt, CountAt, PackAudio, Int64, Uint32;
    if i == 0 {
      FieldAt(head + rest, 0, [], dts[0], Uint32(dur[0]) + rest);
      CountIs(head + rest, 8, Int64(dts[0]), dur[0], rest);
    } else {
      AudioAt(dts[1..], dur[1..], i - 1);
      Behind(head, rest, 12 * (i - 1));
      CountBehind(head, rest, 12 * (i - 1) + 8);
    }
  }

  lemma {:induction false} AudioLength(dts: seq<int>, dur: seq<int>)
    requires |dts| == |dur| && AllInt64(dts) && AllUint32(dur)
    ensures |PackAudio(dts, dur)| == 12 * |dts|
  {
    if |dts| > 0 {
      AudioLength(dts[1..], dur[1..]);
    }
  }

  /**
   The timing record: a count, decode time and offset of every video sample, the end, a
   count, and decode time and duration of every audio frame, each at its own place.
   */
  lemma TimingLayout(t: TimingValues)
    requires t.Paired() && TimingRecord(t).Some?
    ensures var m, n, k := TimingRecord(t).value, |t.videoDts|, |t.audioDts|;
            && |m| == 16 + 16 * n + 12 * k && CountAt(m, 0) == n && WordAt(m, 4 + 16 * n) == t.videoEnd && CountAt(m, 12 + 16 * n) == k
            && (forall i | 0 <= i < n :: SignedAt(m, 4 + 16 * i) == t.videoDts[i] && SignedAt(m, 12 + 16 * i) == t.videoCts[i])
            && forall j | 0 <= j < k :: SignedAt(m, 16 + 16 * n + 12 * j) == t.audioDts[j] && CountAt(m, 24 + 16 * n + 12 * j) == t.audioDur[j]
  {
    hide SignedAt, CountAt, WordAt, PackVideo, PackAudio, TimingRecord, AllInt64, AllUint32;
    TimingCounts(t);
    forall i | 0 <= i < |t.videoDts|
      ensures SignedAt(TimingRecord(t).value, 4 + 16 * i) == t.videoDts[i] && SignedAt(TimingRecord(t).value, 12 + 16 * i) == t.videoCts[i]
    {
      TimingVideo(t, i);
    }
    forall j | 0 <= j < |t.audioDts|
      ensures SignedAt(TimingRecord(t).value, 16 + 16 * |t.videoDts| + 12 * j) == t.audioDts[j]
      ensures CountAt(TimingRecord(t).value, 24 + 16 * |t.videoDts| + 12 * j) == t.audioDur[j]
    {
      TimingAudio(t, j);
    }
  }

  lemma TimingCounts(t: TimingValues)
    requires t.Paired() && TimingRecord(t).Some?
    ensures var m, n, k := TimingRecord(t).value, |t.videoDts|, |t.audioDts|;
            |m| == 16 + 16 * n + 12 * k && CountAt(m, 0) == n && WordAt(m, 4 + 16 * n) == t.videoEnd && CountAt(m, 12 + 16 * n) == k
  {
    var n, k := |t.videoDts|, |t.audioDts|;
    VideoLength(t.videoDts, t.videoCts);
    AudioLength(t.audioDts, t.audioDur);
    var count, video, end, frames, audio := Uint32(n), PackVideo(t.videoDts, t.videoCts), Uint64(t.videoEnd), Uint32(k), PackAudio(t.audioDts, t.audioDur);
    hide SignedAt, CountAt, WordAt, PackVideo, PackAudio, Uint32, Uint64, Int64;
    var m := count + video + end + frames + audio;
    assert m == count + video + end + (frames + audio) && m == [] + count + (video + end + frames + audio);
    EndReads(m, count + video, t.videoEnd, frames + audio);
    CountIs(m, 0, [], n, video + end + frames + audio);
    CountIs(m, 12 + 16 * n, count + video + end, k, audio);
  }

  lemma TimingVideo(t: TimingValues, i: nat)
    requires t.Paired() && TimingRecord(t).Some? && i < |t.videoDts|
    ensures 20 + 16 * i <= |TimingRecord(t).value|
    ensures SignedAt(TimingRecord(t).value, 4 + 16 * i) == t.videoDts[i] && SignedAt(TimingRecord(t).value, 12 + 16 * i) == t.videoCts[i]
  {
    VideoAt(t.videoDts, t.videoCts, i);
    var count, video, rest := Uint32(|t.videoDts|), PackVideo(t.videoDts, t.videoCts), Uint64(t.videoEnd) + Uint32(|t.audioDts|) + PackAudio(t.audioDts, t.audioDur);
    assert TimingRecord(t).value == count + video + rest;
    hide SignedAt, PackVideo, PackAudio, Uint32, Uint64, Int64, TimingRecord;
    InMiddle(count, video, rest, 16 * i);
    InMiddle(count, video, rest, 16 * i + 8);
  }

  lemma TimingAudio(t: TimingValues, j: nat)
    requires t.Paired() && TimingRecord(t).Some? && j < |t.audioDts|
    ensures 28 + 16 * |t.videoDts| + 12 * j <= |TimingRecord(t).value|
    ensures SignedAt(TimingRecord(t).value, 16 + 16 * |t.videoDts| + 12 * j) == t.audioDts[j]
    ensures CountAt(TimingRecord(t).value, 24 + 16 * |t.videoDts| + 12 * j) == t.audioDur[j]
  {
    VideoLength(t.videoDts, t.videoCts);
    AudioAt(t.audioDts, t.audioDur, j);
    var head, audio := Uint32(|t.videoDts|) + PackVideo(t.videoDts, t.videoCts) + Uint64(t.videoEnd) + Uint32(|t.audioDts|), PackAudio(t.audioDts, t.audioDur);
    assert TimingRecord(t).value == head + audio;
    hide SignedAt, CountAt, PackVideo, PackAudio, Uint32, Uint64, Int64, TimingRecord;
    Behind(head, audio, 12 * j);
    CountBehind(head, audio, 12 * j + 8);
  }

  lemma InMiddle(head: Buffer, part: Buffer, tail: Buffer, at: nat)
    requires at + 8 <= |part|
    ensures SignedAt(head + part + tail, |head| + at) == SignedAt(part, at)
  {
    assert (head + part + tail)[|head| + at..|head| + at + 8] == part[at..at + 8];
  }

  lemma EndReads(b: Buffer, before: Buffer, v: int, after: Buffer)
    requires IsUint64(v) && b == before + Uint64(v) + after
    ensures |before| + 8 <= |b| && WordAt(b, |before|) == v
  {
    Widths();
    ReadWritten(v, 8);
    hide ReadBigEndian, BigEndian, Pow256;
    assert b[|before|..|before| + 8] == Uint64(v);
  }

  // ---- the vault ----

  lemma VaultLayout(h: Hash, m: Vault.Manifest, index: nat)
    requires m.Valid() && index < Vault.ChunkCount(m)
    ensures var header, nonce, aad := Vault.Header(m), Vault.Nonce(m, index), Vault.Aad(h, m, index);
            && |header| == 106 && header[..22] == Ascii("vcap/1.0/vault/header") + [0] && header[22..38] == m.objectId && header[38..54] == m.captureId
            && header[54..86] == m.orgKeyId && header[86..94] == m.noncePrefix && ReadBigEndian(header[94..102]) == m.plaintextBytes && ReadBigEndian(header[102..]) == 1048576
            && |nonce| == 12 && nonce[..8] == m.noncePrefix && ReadBigEndian(nonce[8..]) == index
            && |aad| == 58 && aad[..21] == Ascii("vcap/1.0/vault/chunk") + [0] && aad[21..53] == h(header) && ReadBigEndian(aad[53..57]) == index
            && aad[57] == if index == Vault.ChunkCount(m) - 1 then 1 else 0
  {
    Widths();
    Vault.FewChunks(m, index);
    Numbers(m.plaintextBytes, index);
    Numbers(0, Vault.CHUNK_BYTES);
    hide BigEndian, ReadBigEndian, Pow256;
    HeaderFields(m);
    var nonce, aad := Vault.Nonce(m, index), Vault.Aad(h, m, index);
    assert nonce[8..] == BigEndian(index, 4);
    ChunkLabel();
    FourFields(Vault.CHUNK_LABEL, h(Vault.Header(m)), BigEndian(index, 4), [if index == Vault.ChunkCount(m) - 1 then 1 else 0]);
  }

  lemma ChunkLabel()
    ensures Vault.CHUNK_LABEL == Ascii("vcap/1.0/vault/chunk") + [0] && |Vault.CHUNK_LABEL| == 21
  {
  }

  lemma HeaderFields(m: Vault.Manifest)
    requires m.Valid()
    ensures var header := Vault.Header(m);
            && |header| == 106 && header[..22] == Ascii("vcap/1.0/vault/header") + [0] && header[22..38] == m.objectId && header[38..54] == m.captureId
            && header[54..86] == m.orgKeyId && header[86..94] == m.noncePrefix && header[94..102] == BigEndian(m.plaintextBytes, 8) && header[102..] == BigEndian(Vault.CHUNK_BYTES, 4)
  {
    hide BigEndian;
    assert Vault.HEADER_LABEL == Ascii("vcap/1.0/vault/header") + [0];
    var size, chunk := BigEndian(m.plaintextBytes, 8), BigEndian(Vault.CHUNK_BYTES, 4);
    var front := Vault.HEADER_LABEL + m.objectId + m.captureId + m.orgKeyId;
    FourFields(Vault.HEADER_LABEL, m.objectId, m.captureId, m.orgKeyId);
    FourFields(front, m.noncePrefix, size, chunk);
    var header := front + m.noncePrefix + size + chunk;
    assert Vault.Header(m) == header;
    assert header[..86] == front;
    assert header[..22] == front[..22] && header[22..38] == front[22..38] && header[38..54] == front[38..54] && header[54..86] == front[54..86];
    assert front[54..86] == front[54..];
  }
}

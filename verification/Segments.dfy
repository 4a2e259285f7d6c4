/** The signed hash chain over segments (tools/src/segments.ts and the writer's `signChain` of tools/src/sign.ts). */
module Segments {
  import opened ByteStrings
  import opened Primitives
  import opened Sorting

  /** "vcap/1.0/seg" */
  const SEPARATOR: Buffer := [0x76, 0x63, 0x61, 0x70, 0x2f, 0x31, 0x2e, 0x30, 0x2f, 0x73, 0x65, 0x67]

  const ZERO_LINK: Digest := ZERO_DIGEST

  /** What one segment's signature is over: 96 bytes, or none when a field has the wrong length. */
  function SegmentMessage(captureId: Buffer, index: int, contentHash: Buffer, prevLink: Buffer): (message: Option<Buffer>)
    ensures message.Some? ==> |message.value| == 96
  {
    if |captureId| != 16 || |contentHash| != 32 || |prevLink| != 32 || index < 0 || index >= Pow256(4) then None
    else Some(SEPARATOR + captureId + BigEndian(index, 4) + contentHash + prevLink)
  }

  /** The message determines every field. */
  lemma SegmentMessageInjective(c: Buffer, n: int, hash: Buffer, prev: Buffer, c': Buffer, n': int, hash': Buffer, prev': Buffer)
    requires SegmentMessage(c, n, hash, prev).Some? && SegmentMessage(c, n, hash, prev) == SegmentMessage(c', n', hash', prev')
    ensures c == c' && n == n' && hash == hash' && prev == prev'
  {
    var i, i' := BigEndian(n, 4), BigEndian(n', 4);
    SplitEqual(SEPARATOR + c + i + hash, prev, SEPARATOR + c' + i' + hash', prev');
    SplitEqual(SEPARATOR + c + i, hash, SEPARATOR + c' + i', hash');
    SplitEqual(SEPARATOR + c, i, SEPARATOR + c', i');
    SplitEqual(SEPARATOR, c, SEPARATOR, c');
    BigEndianInjective(n, n', 4);
  }

  /** One entry of `segments[]`, as text; `timing` is empty in message-level vectors. */
  datatype SegmentEntry = SegmentEntry(gop: int, hash: string, prev: string, sig: string, timing: string)

  // ---- the writer ----

  /** `prev_link(n)` of a capture with these content hashes. */
  function LinkBefore(h: Hash, captureId: Buffer, contents: seq<Digest>, n: nat): Digest
    requires |captureId| == 16 && n <= |contents| <= Pow256(4)
    decreases n, 0
  {
    if n == 0 then ZERO_LINK else h(ChainMessage(h, captureId, contents, n - 1))
  }

  function ChainMessage(h: Hash, captureId: Buffer, contents: seq<Digest>, n: nat): Buffer
    requires |captureId| == 16 && n < |contents| <= Pow256(4)
    decreases n, 1
  {
    SegmentMessage(captureId, n, contents[n], LinkBefore(h, captureId, contents, n)).value
  }

  function ChainEntry(h: Hash, b64: Base64, sign: Buffer -> Buffer, captureId: Buffer, contents: seq<Digest>, n: nat): SegmentEntry
    requires |captureId| == 16 && n < |contents| <= Pow256(4)
  {
    SegmentEntry(n, b64.encode(contents[n]), b64.encode(LinkBefore(h, captureId, contents, n)),
                 b64.encode(sign(ChainMessage(h, captureId, contents, n))), "")
  }

  predicate Sealable(captureId: Buffer, contents: seq<Digest>) {
    |captureId| == 16 && |contents| <= Pow256(4)
  }

  /** Signs a full chain; none where `segmentMessage` throws. */
  method SignChain(h: Hash, b64: Base64, sign: Buffer -> Buffer, captureId: Buffer, contents: seq<Digest>) returns (entries: Option<seq<SegmentEntry>>)
    ensures entries.Some? <==> Sealable(captureId, contents) || contents == []
    ensures entries.Some? ==> |entries.value| == |contents|
    ensures entries.Some? && contents != [] ==>
              forall n | 0 <= n < |contents| :: entries.value[n] == ChainEntry(h, b64, sign, captureId, contents, n)
  {
    var out: seq<SegmentEntry> := [];
    var prev: Digest := ZERO_LINK;
    for index := 0 to |contents|
      invariant index > 0 ==> |captureId| == 16 && index <= Pow256(4)
      invariant |out| == index
      invariant Sealable(captureId, contents) ==>
                  && prev == LinkBefore(h, captureId, contents, index)
                  && forall n | 0 <= n < index :: out[n] == ChainEntry(h, b64, sign, captureId, contents, n)
    {
      var message := SegmentMessage(captureId, index, contents[index], prev);
      if message.None? {
        return None;
      }
      out := out + [SegmentEntry(index, b64.encode(contents[index]), b64.encode(prev), b64.encode(sign(message.value)), "")];
      prev := h(message.value);
    }
    return Some(out);
  }

  // ---- the verifier ----

  datatype ChainStatus = Complete | Clip | Tampered

  datatype ChainResult = ChainResult(status: ChainStatus, verified: seq<int>)

  /** The entries by segment index; of two entries with one index the later stays. */
  function ByIndex(entries: seq<SegmentEntry>): map<int, SegmentEntry> {
    if |entries| == 0 then map[]
    else ByIndex(entries[..|entries| - 1])[entries[|entries| - 1].gop := entries[|entries| - 1]]
  }

  /** The message rebuilt from entry `n`'s own fields. */
  function MessageAt(b64: Base64, captureId: Buffer, byIndex: map<int, SegmentEntry>, n: int): Option<Buffer>
    requires n in byIndex
  {
    SegmentMessage(captureId, n, b64.decode(byIndex[n].hash), b64.decode(byIndex[n].prev))
  }

  /** Segment `n` links to its predecessor wherever the proof carries one, and its signature verifies. */
  predicate EntryHolds(h: Hash, b64: Base64, verifies: Verifier, captureId: Buffer, byIndex: map<int, SegmentEntry>, n: int)
    requires n in byIndex
  {
    var message := MessageAt(b64, captureId, byIndex, n);
    var prev := b64.decode(byIndex[n].prev);
    && (n == 0 ==> prev == ZERO_LINK)
    && (n != 0 && n - 1 in byIndex ==> MessageAt(b64, captureId, byIndex, n - 1).Some? && prev == h(MessageAt(b64, captureId, byIndex, n - 1).value))
    && message.Some? && verifies(message.value, b64.decode(byIndex[n].sig))
  }

  /** How many of `keys` hold before the first that does not. */
  function HoldingPrefix(h: Hash, b64: Base64, verifies: Verifier, captureId: Buffer, byIndex: map<int, SegmentEntry>, keys: seq<int>, from: nat): (n: nat)
    requires forall k | k in keys :: k in byIndex
    requires from <= |keys|
    ensures from <= n <= |keys|
    decreases |keys| - from
  {
    if from < |keys| && EntryHolds(h, b64, verifies, captureId, byIndex, keys[from])
    then HoldingPrefix(h, b64, verifies, captureId, byIndex, keys, from + 1)
    else from
  }

  /** The result of the chain check: what held, in index order, up to the first entry that did not. */
  function ChainOf(h: Hash, b64: Base64, verifies: Verifier, captureId: Buffer, segmentCount: int, entries: seq<SegmentEntry>): ChainResult {
    var byIndex := ByIndex(entries);
    var keys := Sorted(byIndex.Keys);
    SortedKeys(byIndex);
    var n := HoldingPrefix(h, b64, verifies, captureId, byIndex, keys, 0);
    ChainResult(
      if n < |keys| then Tampered
      else if |keys| == segmentCount && forall i | 0 <= i < |keys| :: keys[i] == i then Complete else Clip,
      keys[..n])
  }

  lemma SortedKeys(byIndex: map<int, SegmentEntry>)
    ensures forall k | k in Sorted(byIndex.Keys) :: k in byIndex
    ensures forall k | k in byIndex :: k in Sorted(byIndex.Keys)
  {
    assert forall k | k in byIndex :: k in Elements(Sorted(byIndex.Keys));
    assert forall k | k in Sorted(byIndex.Keys) :: k in Elements(Sorted(byIndex.Keys));
  }

  /** The messages rebuilt for the entries whose index is in `done`. */
  ghost predicate MessagesOf(b64: Base64, captureId: Buffer, byIndex: map<int, SegmentEntry>, done: seq<int>, messages: map<int, Buffer>) {
    && (forall k :: k in messages <==> k in done)
    && (forall k | k in messages :: k in byIndex && MessageAt(b64, captureId, byIndex, k) == Some(messages[k]))
  }

  /** One round of the check: the message of entry `index`, or none when the chain is broken there. */
  method CheckEntry(h: Hash, b64: Base64, verifies: Verifier, captureId: Buffer, byIndex: map<int, SegmentEntry>, messages: map<int, Buffer>, index: int)
    returns (message: Option<Buffer>)
    requires index in byIndex
    requires index - 1 in messages <==> index - 1 in byIndex
    requires index - 1 in messages ==> MessageAt(b64, captureId, byIndex, index - 1) == Some(messages[index - 1])
    ensures message.Some? <==> EntryHolds(h, b64, verifies, captureId, byIndex, index)
    ensures message.Some? ==> message == MessageAt(b64, captureId, byIndex, index)
  {
    hide SegmentMessage;
    var entry := byIndex[index];
    var storedPrev := b64.decode(entry.prev);
    var expectedPrev := if index == 0 then ZERO_LINK else if index - 1 in messages then h(messages[index - 1]) else storedPrev;
    if storedPrev != expectedPrev {
      return None;
    }
    message := SegmentMessage(captureId, index, b64.decode(entry.hash), storedPrev);
    if message.Some? && !verifies(message.value, b64.decode(entry.sig)) {
      return None;
    }
  }

  lemma HoldingStep(h: Hash, b64: Base64, verifies: Verifier, captureId: Buffer, byIndex: map<int, SegmentEntry>, keys: seq<int>, i: nat)
    requires forall k | k in keys :: k in byIndex
    requires i <= |keys|
    ensures HoldingPrefix(h, b64, verifies, captureId, byIndex, keys, i)
         == if i < |keys| && EntryHolds(h, b64, verifies, captureId, byIndex, keys[i])
            then HoldingPrefix(h, b64, verifies, captureId, byIndex, keys, i + 1) else i
  {
  }

  lemma PredecessorMessage(b64: Base64, captureId: Buffer, byIndex: map<int, SegmentEntry>, keys: seq<int>, i: nat, messages: map<int, Buffer>)
    requires i < |keys| && MessagesOf(b64, captureId, byIndex, keys[..i], messages)
    requires Ascending(keys) && forall k :: k in keys <==> k in byIndex
    ensures keys[i] - 1 in messages <==> keys[i] - 1 in byIndex
    ensures keys[i] - 1 in messages ==> MessageAt(b64, captureId, byIndex, keys[i] - 1) == Some(messages[keys[i] - 1])
  {
    hide MessageAt;
    Predecessor(keys, i);
  }

  lemma NoMessages(b64: Base64, captureId: Buffer, byIndex: map<int, SegmentEntry>, done: seq<int>)
    requires done == []
    ensures MessagesOf(b64, captureId, byIndex, done, map[])
  {
  }

  lemma MessageKept(b64: Base64, captureId: Buffer, byIndex: map<int, SegmentEntry>, done: seq<int>, messages: map<int, Buffer>, index: int, message: Buffer)
    requires MessagesOf(b64, captureId, byIndex, done, messages)
    requires index in byIndex && MessageAt(b64, captureId, byIndex, index) == Some(message)
    ensures MessagesOf(b64, captureId, byIndex, done + [index], messages[index := message])
  {
    hide MessageAt;
  }

  method VerifyChain(h: Hash, b64: Base64, verifies: Verifier, captureId: Buffer, segmentCount: int, entries: seq<SegmentEntry>) returns (result: ChainResult)
    ensures result == ChainOf(h, b64, verifies, captureId, segmentCount, entries)
  {
    hide EntryHolds, MessageAt, ByIndex, MessagesOf, HoldingPrefix, Sorted, Ascending, Elements;
    var byIndex := ByIndex(entries);
    var keys := Sorted(byIndex.Keys);
    SortedKeys(byIndex);
    SortedAscends(byIndex.Keys);
    var messages: map<int, Buffer> := map[];
    NoMessages(b64, captureId, byIndex, keys[..0]);
    var verified: seq<int> := [];
    for i := 0 to |keys|
      invariant verified == keys[..i]
      invariant MessagesOf(b64, captureId, byIndex, keys[..i], messages)
      invariant HoldingPrefix(h, b64, verifies, captureId, byIndex, keys, i) == HoldingPrefix(h, b64, verifies, captureId, byIndex, keys, 0)
    {
      var index := keys[i];
      PredecessorMessage(b64, captureId, byIndex, keys, i, messages);
      var message := CheckEntry(h, b64, verifies, captureId, byIndex, messages, index);
      HoldingStep(h, b64, verifies, captureId, byIndex, keys, i);
      if message.None? {
        return ChainResult(Tampered, verified);
      }
      MessageKept(b64, captureId, byIndex, keys[..i], messages, index, message.value);
      messages := messages[index := message.value];
      verified := verified + [index];
      assert keys[..i + 1] == keys[..i] + [index];
    }
    assert keys[..|keys|] == keys;
    HoldingStep(h, b64, verifies, captureId, byIndex, keys, |keys|);
    assert verified == keys;
    var complete := |verified| == segmentCount && forall i | 0 <= i < |verified| :: verified[i] == i;
    return ChainResult(if complete then Complete else Clip, verified);
  }

  /** In an ascending list, what comes just below an entry comes before it or not at all. */
  lemma Predecessor(keys: seq<int>, i: nat)
    requires i < |keys| && Ascending(keys)
    ensures keys[i] - 1 in keys ==> keys[i] - 1 in keys[..i]
    ensures keys[i] !in keys[..i]
  {
    if keys[i] - 1 in keys {
      var j :| 0 <= j < |keys| && keys[j] == keys[i] - 1;
      assert j < i;
      assert keys[..i][j] == keys[j];
    }
  }

  // ---- what a selection of signed entries verifies as ----

  function GopIndices(entries: seq<SegmentEntry>): set<int> {
    set e | e in entries :: e.gop
  }

  lemma {:induction false} ByIndexKeys(entries: seq<SegmentEntry>)
    ensures ByIndex(entries).Keys == GopIndices(entries)
    ensures forall k | k in ByIndex(entries) :: ByIndex(entries)[k] in entries && ByIndex(entries)[k].gop == k
  {
    if |entries| > 0 {
      var most, last := entries[..|entries| - 1], entries[|entries| - 1];
      ByIndexKeys(most);
      assert entries == most + [last];
      assert GopIndices(entries) == GopIndices(most) + {last.gop};
    }
  }

  /** An entry the writer signed, whatever timing hash it was given. */
  predicate IsSigned(h: Hash, b64: Base64, sign: Buffer -> Buffer, captureId: Buffer, contents: seq<Digest>, entry: SegmentEntry)
    requires Sealable(captureId, contents)
  {
    0 <= entry.gop < |contents| && entry.(timing := "") == ChainEntry(h, b64, sign, captureId, contents, entry.gop)
  }

  lemma SignedEntryHolds(h: Hash, b64: Base64, verifies: Verifier, sign: Buffer -> Buffer, captureId: Buffer, contents: seq<Digest>,
                         byIndex: map<int, SegmentEntry>, n: int)
    requires Sealable(captureId, contents) && b64.Faithful() && forall m :: verifies(m, sign(m))
    requires n in byIndex
    requires forall k | k in byIndex :: byIndex[k].gop == k && IsSigned(h, b64, sign, captureId, contents, byIndex[k])
    ensures EntryHolds(h, b64, verifies, captureId, byIndex, n)
  {
    hide SegmentMessage;
    SignedMessage(h, b64, sign, captureId, contents, byIndex, n);
    if n - 1 in byIndex {
      SignedMessage(h, b64, sign, captureId, contents, byIndex, n - 1);
    }
    assert b64.decode(b64.encode(sign(ChainMessage(h, captureId, contents, n)))) == sign(ChainMessage(h, captureId, contents, n));
  }

  lemma SignedMessage(h: Hash, b64: Base64, sign: Buffer -> Buffer, captureId: Buffer, contents: seq<Digest>, byIndex: map<int, SegmentEntry>, k: int)
    requires Sealable(captureId, contents) && b64.Faithful() && k in byIndex
    requires byIndex[k].gop == k && IsSigned(h, b64, sign, captureId, contents, byIndex[k])
    ensures MessageAt(b64, captureId, byIndex, k) == Some(ChainMessage(h, captureId, contents, k))
    ensures b64.decode(byIndex[k].prev) == LinkBefore(h, captureId, contents, k)
  {
    var entry := ChainEntry(h, b64, sign, captureId, contents, k);
    assert byIndex[k].hash == entry.hash && byIndex[k].prev == entry.prev;
    assert b64.decode(b64.encode(contents[k])) == contents[k];
    var link := LinkBefore(h, captureId, contents, k);
    assert b64.decode(b64.encode(link)) == link;
  }

  lemma {:induction false} AllHold(h: Hash, b64: Base64, verifies: Verifier, captureId: Buffer, byIndex: map<int, SegmentEntry>, keys: seq<int>, from: nat)
    requires forall k | k in keys :: k in byIndex && EntryHolds(h, b64, verifies, captureId, byIndex, k)
    requires from <= |keys|
    ensures HoldingPrefix(h, b64, verifies, captureId, byIndex, keys, from) == |keys|
    decreases |keys| - from
  {
    if from < |keys| {
      AllHold(h, b64, verifies, captureId, byIndex, keys, from + 1);
    }
  }

  /** 0, 1, ..., n - 1 */
  function Range(n: nat): seq<int> {
    seq(n, i => i)
  }

  /**
   Any selection of a chain's entries, in any order and with repeats, verifies: the
   segments credited are the selected indices in order, and the proof is complete
   exactly when no index is missing.
   */
  lemma SelectionVerifies(h: Hash, b64: Base64, verifies: Verifier, sign: Buffer -> Buffer, captureId: Buffer, contents: seq<Digest>, entries: seq<SegmentEntry>)
    requires Sealable(captureId, contents) && b64.Faithful() && forall m :: verifies(m, sign(m))
    requires forall e | e in entries :: IsSigned(h, b64, sign, captureId, contents, e)
    ensures var result := ChainOf(h, b64, verifies, captureId, |contents|, entries);
            && result.verified == Sorted(GopIndices(entries))
            && result.status != Tampered
            && (result.status == Complete <==> GopIndices(entries) == Elements(Range(|contents|)))
  {
    hide EntryHolds, IsSigned, ByIndex, Sorted, HoldingPrefix, Range;
    var byIndex := ByIndex(entries);
    ByIndexKeys(entries);
    var keys := Sorted(byIndex.Keys);
    SortedKeys(byIndex);
    forall k | k in keys
      ensures EntryHolds(h, b64, verifies, captureId, byIndex, k)
    {
      SignedEntryHolds(h, b64, verifies, sign, captureId, contents, byIndex, k);
    }
    AllHold(h, b64, verifies, captureId, byIndex, keys, 0);
    assert keys[..|keys|] == keys;
    SortedRange(byIndex.Keys, |contents|);
  }

  lemma SortedRange(s: set<int>, n: nat)
    ensures (|Sorted(s)| == n && forall i | 0 <= i < |Sorted(s)| :: Sorted(s)[i] == i) <==> s == Elements(Range(n))
  {
    hide Sorted;
    var list := Sorted(s);
    SortedAscends(s);
    if s == Elements(Range(n)) {
      AscendingUnique(list, Range(n));
    }
    RangeIs(list, n);
  }

  lemma RangeIs(list: seq<int>, n: nat)
    ensures (|list| == n && forall i | 0 <= i < |list| :: list[i] == i) <==> list == Range(n)
  {
  }

  // ---- what a link commits to ----

  /** Every message a chain hashes up to index `n` is in `messages`. */
  ghost predicate ChainHashed(h: Hash, captureId: Buffer, contents: seq<Digest>, n: nat, messages: iset<Buffer>)
    requires Sealable(captureId, contents) && n < |contents|
  {
    forall k | 0 <= k < n :: ChainMessage(h, captureId, contents, k) in messages
  }

  /** One message at index `n` fixes the capture and every content hash up to `n`, present or not. */
  lemma {:induction false} MessageCommits(h: Hash, c: Buffer, contents: seq<Digest>, c': Buffer, contents': seq<Digest>, n: nat, messages: iset<Buffer>)
    requires Sealable(c, contents) && Sealable(c', contents') && n < |contents| && n < |contents'|
    requires InjectiveOn(h, messages) && ChainHashed(h, c, contents, n, messages) && ChainHashed(h, c', contents', n, messages)
    requires ChainMessage(h, c, contents, n) == ChainMessage(h, c', contents', n)
    ensures c == c' && contents[..n + 1] == contents'[..n + 1]
  {
    SegmentMessageInjective(c, n, contents[n], LinkBefore(h, c, contents, n), c', n, contents'[n], LinkBefore(h, c', contents', n));
    if n > 0 {
      assert ChainMessage(h, c, contents, n - 1) in messages && ChainMessage(h, c', contents', n - 1) in messages;
      MessageCommits(h, c, contents, c', contents', n - 1, messages);
      assert contents[..n + 1] == contents[..n] + [contents[n]];
      assert contents'[..n + 1] == contents'[..n] + [contents'[n]];
    } else {
      assert contents[..1] == [contents[0]] && contents'[..1] == [contents'[0]];
    }
  }
}

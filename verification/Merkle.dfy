/**
 The transparency log's Merkle tree (tools/src/registry.ts, and the two tree
 builders of tools/src/generate.ts): the pair-and-promote builder and the
 iterative inclusion check, against sections 2.1 and 2.1.1 of RFC 6962.
 */
module Merkle {
  import opened ByteStrings
  import opened Primitives

  function LeafMessage(data: Buffer): Buffer {
    [0] + data
  }

  function NodeMessage(left: Digest, right: Digest): Buffer {
    [1] + left + right
  }

  function LeafHash(h: Hash, data: Buffer): Digest {
    h(LeafMessage(data))
  }

  function NodeHash(h: Hash, left: Digest, right: Digest): Digest {
    h(NodeMessage(left, right))
  }

  /** Leaf and node messages never coincide, and a node message names its two children. */
  lemma MessagesSeparate(data: Buffer, left: Digest, right: Digest, left': Digest, right': Digest)
    ensures LeafMessage(data) != NodeMessage(left, right)
    ensures NodeMessage(left, right) == NodeMessage(left', right') ==> left == left' && right == right'
  {
    assert LeafMessage(data)[0] == 0;
    assert NodeMessage(left, right)[0] == 1;
    if NodeMessage(left, right) == NodeMessage(left', right') {
      SplitEqual([1] + left, right, [1] + left', right');
      SplitEqual([1], left, [1], left');
    }
  }

  // ---- the standard's recursive definitions ----

  /** The largest power of two smaller than `n`. */
  function Split(n: nat): (k: nat)
    requires n >= 2
    ensures 1 <= k < n <= 2 * k
    ensures n > 2 ==> k % 2 == 0
  {
    if n == 2 then 1 else 2 * Split((n + 1) / 2)
  }

  ghost predicate IsPowerOfTwo(k: nat) {
    k == 1 || (k > 1 && k % 2 == 0 && IsPowerOfTwo(k / 2))
  }

  lemma {:induction false} SplitIsThePowerOfTwo(n: nat)
    requires n >= 2
    ensures IsPowerOfTwo(Split(n))
  {
    if n > 2 {
      SplitIsThePowerOfTwo((n + 1) / 2);
      assert Split(n) / 2 == Split((n + 1) / 2);
    }
  }

  /** Two powers of two with `k < n <= 2 * k` are one: `Split` is *the* power RFC 6962 names. */
  lemma {:induction false} SplitUnique(n: nat, k: nat)
    requires n >= 2 && IsPowerOfTwo(k) && k < n <= 2 * k
    ensures k == Split(n)
  {
    if n > 2 {
      SplitUnique((n + 1) / 2, k / 2);
    }
  }

  /** MTH of section 2.1, over leaf hashes. */
  function TreeHash(h: Hash, leaves: seq<Digest>): Digest
    requires |leaves| > 0
  {
    if |leaves| == 1 then leaves[0]
    else
      var k := Split(|leaves|);
      NodeHash(h, TreeHash(h, leaves[..k]), TreeHash(h, leaves[k..]))
  }

  /** PATH of section 2.1.1. */
  function AuditPath(h: Hash, index: nat, leaves: seq<Digest>): seq<Digest>
    requires index < |leaves|
    decreases |leaves|
  {
    if |leaves| == 1 then []
    else
      var k := Split(|leaves|);
      if index < k then AuditPath(h, index, leaves[..k]) + [TreeHash(h, leaves[k..])]
      else AuditPath(h, index - k, leaves[k..]) + [TreeHash(h, leaves[..k])]
  }

  // ---- level by level ----

  /** What one level up holds at place `q`: a pair hashed, or an odd last entry promoted. */
  function Above(h: Hash, level: seq<Digest>, q: nat): Digest
    requires 2 * q < |level|
  {
    if 2 * q + 1 < |level| then NodeHash(h, level[2 * q], level[2 * q + 1]) else level[2 * q]
  }

  /** One level up. */
  function PairUp(h: Hash, level: seq<Digest>): (next: seq<Digest>)
    ensures |level| <= 2 * |next| <= |level| + 1
  {
    seq((|level| + 1) / 2, q requires 0 <= q < (|level| + 1) / 2 => Above(h, level, q))
  }

  lemma PairUpAt(h: Hash, level: seq<Digest>, q: nat)
    requires 2 * q < |level|
    ensures |PairUp(h, level)| == (|level| + 1) / 2 && PairUp(h, level)[q] == Above(h, level, q)
  {
  }

  lemma PairUpAppend(h: Hash, a: seq<Digest>, b: seq<Digest>)
    requires |a| % 2 == 0
    ensures PairUp(h, a + b) == PairUp(h, a) + PairUp(h, b)
  {
    var whole, left, right := PairUp(h, a + b), PairUp(h, a), PairUp(h, b);
    assert |a| == 2 * |left|;
    forall q | 0 <= q < |whole|
      ensures whole[q] == (left + right)[q]
    {
    }
  }

  /** The next level of a tree is the levels of its two subtrees side by side. */
  lemma PairUpHalves(h: Hash, leaves: seq<Digest>)
    requires |leaves| > 2
    ensures var k := Split(|leaves|);
            PairUp(h, leaves) == PairUp(h, leaves[..k]) + PairUp(h, leaves[k..]) &&
            |PairUp(h, leaves[..k])| == Split(|PairUp(h, leaves)|)
  {
    var k := Split(|leaves|);
    assert leaves == leaves[..k] + leaves[k..];
    PairUpAppend(h, leaves[..k], leaves[k..]);
  }

  /** Pairing up one level leaves the standard's tree hash unchanged. */
  lemma {:induction false} TreeHashPairUp(h: Hash, leaves: seq<Digest>)
    requires |leaves| > 0
    ensures TreeHash(h, PairUp(h, leaves)) == TreeHash(h, leaves)
  {
    if |leaves| == 2 {
      assert PairUp(h, leaves) == [NodeHash(h, leaves[0], leaves[1])];
    } else if |leaves| > 2 {
      var k := Split(|leaves|);
      PairUpHalves(h, leaves);
      var next := PairUp(h, leaves);
      assert next[..Split(|next|)] == PairUp(h, leaves[..k]);
      assert next[Split(|next|)..] == PairUp(h, leaves[k..]);
      TreeHashPairUp(h, leaves[..k]);
      TreeHashPairUp(h, leaves[k..]);
    }
  }

  /** The sibling a level gives position `p`, when it has one. */
  function Sibling(level: seq<Digest>, p: nat): (s: seq<Digest>)
    requires p < |level|
  {
    if p % 2 == 1 then [level[p - 1]] else if p + 1 < |level| then [level[p + 1]] else []
  }

  /** The two cases of `AuditPath`, for a list given as its two subtrees' leaves. */
  lemma AuditPathOf(h: Hash, index: nat, left: seq<Digest>, right: seq<Digest>)
    requires |left + right| >= 2 && |left| == Split(|left + right|) && index < |left + right|
    ensures index < |left| ==> AuditPath(h, index, left + right) == AuditPath(h, index, left) + [TreeHash(h, right)]
    ensures index >= |left| ==> AuditPath(h, index, left + right) == AuditPath(h, index - |left|, right) + [TreeHash(h, left)]
  {
    hide TreeHash;
    var leaves := left + right;
    assert leaves[..|left|] == left && leaves[|left|..] == right;
  }

  /** `AuditPathPairUp` for an index in the left subtree. */
  lemma {:induction false} AuditPathLeft(h: Hash, index: nat, left: seq<Digest>, right: seq<Digest>)
    requires |left| >= 2 && |right| >= 1 && |left| == Split(|left + right|) && index < |left|
    ensures AuditPath(h, index, left + right) == Sibling(left + right, index) + AuditPath(h, index / 2, PairUp(h, left + right))
    decreases |left + right|, 0
  {
    hide TreeHash, AuditPath, PairUp;
    var left', right' := PairUp(h, left), PairUp(h, right);
    PairUpAppend(h, left, right);
    TreeHashPairUp(h, right);
    AuditPathPairUp(h, index, left);
    AuditPathOf(h, index, left, right);
    AuditPathOf(h, index / 2, left', right');
    assert Sibling(left + right, index) == Sibling(left, index);
  }

  /** `AuditPathPairUp` for an index in the right subtree. */
  lemma {:induction false} AuditPathRight(h: Hash, index: nat, left: seq<Digest>, right: seq<Digest>)
    requires |left| >= 2 && |right| >= 1 && |left| == Split(|left + right|) && index < |right|
    ensures var i := |left| + index;
            AuditPath(h, i, left + right) == Sibling(left + right, i) + AuditPath(h, i / 2, PairUp(h, left + right))
    decreases |left + right|, 0
  {
    hide TreeHash, AuditPath, PairUp;
    var i := |left| + index;
    var left', right' := PairUp(h, left), PairUp(h, right);
    PairUpAppend(h, left, right);
    TreeHashPairUp(h, left);
    AuditPathPairUp(h, index, right);
    AuditPathOf(h, i, left, right);
    AuditPathOf(h, i / 2, left', right');
    assert i / 2 == |left'| + index / 2;
    assert Sibling(left + right, i) == Sibling(right, index);
  }

  lemma AuditPathSmall(h: Hash, index: nat, leaves: seq<Digest>)
    requires index < |leaves| <= 2
    ensures AuditPath(h, index, leaves) == Sibling(leaves, index) + AuditPath(h, index / 2, PairUp(h, leaves))
  {
    if |leaves| == 2 {
      assert PairUp(h, leaves) == [NodeHash(h, leaves[0], leaves[1])];
    }
  }

  /** An audit path is this level's sibling, then the audit path one level up. */
  lemma {:induction false} AuditPathPairUp(h: Hash, index: nat, leaves: seq<Digest>)
    requires index < |leaves|
    ensures AuditPath(h, index, leaves) == Sibling(leaves, index) + AuditPath(h, index / 2, PairUp(h, leaves))
    decreases |leaves|, 1
  {
    hide TreeHash, AuditPath, PairUp, Sibling;
    if |leaves| <= 2 {
      AuditPathSmall(h, index, leaves);
    } else {
      var k := Split(|leaves|);
      var left, right := leaves[..k], leaves[k..];
      assert left + right == leaves;
      if index < k {
        AuditPathLeft(h, index, left, right);
      } else {
        AuditPathRight(h, index - k, left, right);
      }
    }
  }

  /** The loop that builds the next level. */
  method NextLevel(h: Hash, level: seq<Digest>) returns (next: seq<Digest>)
    ensures next == PairUp(h, level)
  {
    next := [];
    var i := 0;
    while i < |level|
      invariant i == 2 * |next| <= |level| + 1
      invariant forall q | 0 <= q < |next| :: next[q] == Above(h, level, q)
    {
      next := next + [if i + 1 < |level| then NodeHash(h, level[i], level[i + 1]) else level[i]];
      i := i + 2;
    }
    assert next == PairUp(h, level);
  }

  /** What one round of the builder keeps: the path so far and the path still to come. */
  lemma ClimbOneLevel(h: Hash, path: seq<Digest>, position: nat, level: seq<Digest>)
    requires position < |level| && |level| >= 2
    ensures position / 2 < |PairUp(h, level)|
    ensures path + Sibling(level, position) + AuditPath(h, position / 2, PairUp(h, level)) == path + AuditPath(h, position, level)
    ensures Sibling(level, position) == [] ==> path + Sibling(level, position) == path
  {
    AuditPathPairUp(h, position, level);
  }

  /**
   The builder of the corpus (`treeWith`, `batchWith`): levels are replaced until
   one digest is left, and each level contributes at most one hash to the path.
   */
  method TreeWith(h: Hash, leaves: seq<Digest>, index: nat) returns (root: Digest, path: seq<Digest>)
    requires index < |leaves|
    ensures root == TreeHash(h, leaves)
    ensures path == AuditPath(h, index, leaves)
  {
    var level: seq<Digest> := leaves;
    path := [];
    var position: nat := index;
    while |level| > 1
      invariant position < |level|
      invariant TreeHash(h, level) == TreeHash(h, leaves)
      invariant path + AuditPath(h, position, level) == AuditPath(h, index, leaves)
    {
      hide TreeHash, AuditPath, PairUp, Sibling;
      ClimbOneLevel(h, path, position, level);
      TreeHashPairUp(h, level);
      var taken := TakeSibling(level, position);
      path := path + taken;
      level := NextLevel(h, level);
      position := position / 2;
    }
    SoleLevel(h, level, path);
    hide TreeHash, AuditPath;
    root := level[0];
  }

  /** What a level adds to the path: its sibling, or nothing at an unpaired end. */
  method TakeSibling(level: seq<Digest>, position: nat) returns (taken: seq<Digest>)
    requires position < |level|
    ensures taken == Sibling(level, position)
  {
    taken := [];
    if position % 2 == 1 {
      taken := [level[position - 1]];
    } else if position + 1 < |level| {
      taken := [level[position + 1]];
    }
  }

  lemma SoleLevel(h: Hash, level: seq<Digest>, path: seq<Digest>)
    requires |level| == 1
    ensures TreeHash(h, level) == level[0] && path + AuditPath(h, 0, level) == path
  {
  }

  // ---- the iterative inclusion check ----

  /** The root the check computes from a leaf upwards, or none when the path is too short or too long. */
  function Climb(h: Hash, hash: Digest, position: nat, size: nat, path: seq<Digest>): Option<Digest>
    requires position < size
    decreases size
  {
    if size == 1 then if path == [] then Some(hash) else None
    else if position % 2 == 1 || position + 1 < size then
      if path == [] then None
      else
        var parent := if position % 2 == 1 then NodeHash(h, path[0], hash) else NodeHash(h, hash, path[0]);
        Climb(h, parent, position / 2, (size + 1) / 2, path[1..])
    else Climb(h, hash, position / 2, (size + 1) / 2, path)
  }

  predicate Included(h: Hash, leaf: Digest, index: int, treeSize: int, path: seq<Digest>, root: Digest) {
    0 <= index < treeSize && Climb(h, leaf, index, treeSize, path) == Some(root)
  }

  method VerifyInclusion(h: Hash, leaf: Digest, index: int, treeSize: int, path: seq<Digest>, root: Digest) returns (ok: bool)
    ensures ok <==> Included(h, leaf, index, treeSize, path, root)
  {
    if index < 0 || treeSize <= 0 || index >= treeSize {
      return false;
    }
    var hash: Digest := leaf;
    var position: nat, size: nat, step := index, treeSize, 0;
    while size > 1
      invariant 0 <= position < size
      invariant 0 <= step <= |path|
      invariant Climb(h, hash, position, size, path[step..]) == Climb(h, leaf, index, treeSize, path)
    {
      if step >= |path| {
        // The last levels may promote without a sibling; the path is short all the same
        // only if some level needs one.
        ShortPath(h, hash, position, size);
        return false;
      }
      if position % 2 == 1 || position + 1 < size {
        var sibling := path[step];
        hash := if position % 2 == 1 then NodeHash(h, sibling, hash) else NodeHash(h, hash, sibling);
        assert path[step..][1..] == path[step + 1..];
        step := step + 1;
      }
      position := position / 2;
      size := (size + 1) / 2;
    }
    ok := step == |path| && hash == root;
  }

  /** Above one leaf some level has a sibling, so an empty path never reaches a root. */
  lemma {:induction false} ShortPath(h: Hash, hash: Digest, position: nat, size: nat)
    requires position < size && size > 1
    ensures Climb(h, hash, position, size, []) == None
    decreases size
  {
    if !(position % 2 == 1 || position + 1 < size) {
      ShortPath(h, hash, position / 2, (size + 1) / 2);
    }
  }

  // ---- which leaf and which path a root admits ----

  function LeafHashes(h: Hash, data: seq<Buffer>): (leaves: seq<Digest>)
    ensures |leaves| == |data|
  {
    seq(|data|, i requires 0 <= i < |data| => LeafHash(h, data[i]))
  }

  /** The root a log publishes for a non-empty list of leaves. */
  function Root(h: Hash, data: seq<Buffer>): Digest
    requires |data| > 0
  {
    TreeHash(h, LeafHashes(h, data))
  }

  /** Every node message hashed under the root of `leaves` is in `messages`. */
  ghost predicate NodesHashed(h: Hash, leaves: seq<Digest>, messages: iset<Buffer>)
    requires |leaves| > 0
    decreases |leaves|
  {
    |leaves| == 1 ||
    var k := Split(|leaves|);
    && NodeMessage(TreeHash(h, leaves[..k]), TreeHash(h, leaves[k..])) in messages
    && NodesHashed(h, leaves[..k], messages)
    && NodesHashed(h, leaves[k..], messages)
  }

  /** Every message hashed to build the root of `data` is in `messages`. */
  ghost predicate TreeHashed(h: Hash, data: seq<Buffer>, messages: iset<Buffer>)
    requires |data| > 0
  {
    && (forall i | 0 <= i < |data| :: LeafMessage(data[i]) in messages)
    && NodesHashed(h, LeafHashes(h, data), messages)
  }

  /** Every message `Climb` hashes is in `messages`. */
  ghost predicate ClimbHashed(h: Hash, hash: Digest, position: nat, size: nat, path: seq<Digest>, messages: iset<Buffer>)
    requires position < size
    decreases size
  {
    if size == 1 then true
    else if position % 2 == 1 || position + 1 < size then
      path == [] ||
      var message := if position % 2 == 1 then NodeMessage(path[0], hash) else NodeMessage(hash, path[0]);
      message in messages && ClimbHashed(h, h(message), position / 2, (size + 1) / 2, path[1..], messages)
    else ClimbHashed(h, hash, position / 2, (size + 1) / 2, path, messages)
  }

  /** Every pair of a level is hashed. */
  ghost predicate PairsHashed(level: seq<Digest>, messages: iset<Buffer>) {
    forall q | 0 <= q && 2 * q + 1 < |level| :: NodeMessage(level[2 * q], level[2 * q + 1]) in messages
  }

  lemma PairsHashedJoin(left: seq<Digest>, right: seq<Digest>, messages: iset<Buffer>)
    requires |left| % 2 == 0
    requires PairsHashed(left, messages) && PairsHashed(right, messages)
    ensures PairsHashed(left + right, messages)
  {
    var m := |left| / 2;
    forall q | 0 <= q && 2 * q + 1 < |left + right|
      ensures NodeMessage((left + right)[2 * q], (left + right)[2 * q + 1]) in messages
    {
      if q >= m {
        assert NodeMessage(right[2 * (q - m)], right[2 * (q - m) + 1]) in messages;
      } else {
        assert NodeMessage(left[2 * q], left[2 * q + 1]) in messages;
      }
    }
  }

  /** The pairs of a level are hashed under its root, and so are the levels above it. */
  lemma {:induction false} NodesHashedPairUp(h: Hash, leaves: seq<Digest>, messages: iset<Buffer>)
    requires |leaves| > 0 && NodesHashed(h, leaves, messages)
    ensures NodesHashed(h, PairUp(h, leaves), messages)
    ensures PairsHashed(leaves, messages)
    decreases |leaves|
  {
    hide PairUp, PairsHashed, TreeHash;
    if |leaves| <= 2 {
      NodesHashedSmall(h, leaves, messages);
    } else {
      var k := Split(|leaves|);
      NodesHashedPairUp(h, leaves[..k], messages);
      NodesHashedPairUp(h, leaves[k..], messages);
      NodesHashedJoin(h, leaves, messages);
      PairsHashedJoin(leaves[..k], leaves[k..], messages);
      assert leaves[..k] + leaves[k..] == leaves;
    }
  }

  lemma NodesHashedSmall(h: Hash, leaves: seq<Digest>, messages: iset<Buffer>)
    requires 0 < |leaves| <= 2 && NodesHashed(h, leaves, messages)
    ensures NodesHashed(h, PairUp(h, leaves), messages)
    ensures PairsHashed(leaves, messages)
  {
    if |leaves| == 2 {
      assert TreeHash(h, leaves[..1]) == leaves[0] && TreeHash(h, leaves[1..]) == leaves[1];
    }
  }

  lemma NodesHashedJoin(h: Hash, leaves: seq<Digest>, messages: iset<Buffer>)
    requires |leaves| > 2 && NodesHashed(h, leaves, messages)
    requires NodesHashed(h, PairUp(h, leaves[..Split(|leaves|)]), messages)
    requires NodesHashed(h, PairUp(h, leaves[Split(|leaves|)..]), messages)
    ensures NodesHashed(h, PairUp(h, leaves), messages)
  {
    var k := Split(|leaves|);
    var next := PairUp(h, leaves);
    PairUpHalves(h, leaves);
    var m := Split(|next|);
    assert next[..m] == PairUp(h, leaves[..k]);
    assert next[m..] == PairUp(h, leaves[k..]);
    TreeHashPairUp(h, leaves[..k]);
    TreeHashPairUp(h, leaves[k..]);
  }

  function ParentMessage(hash: Digest, position: nat, sibling: seq<Digest>): Buffer
    requires sibling != []
  {
    if position % 2 == 1 then NodeMessage(sibling[0], hash) else NodeMessage(hash, sibling[0])
  }

  /** What one round of the check makes of a digest and its sibling, if any. */
  function Parent(h: Hash, hash: Digest, position: nat, sibling: seq<Digest>): Digest {
    if sibling == [] then hash else h(ParentMessage(hash, position, sibling))
  }

  /** One round of `Climb` on a path that starts with the hash this level takes. */
  lemma ClimbStep(h: Hash, hash: Digest, position: nat, level: seq<Digest>, sibling: seq<Digest>, above: seq<Digest>)
    requires position < |level| && |level| > 1
    requires |sibling| == |Sibling(level, position)|
    ensures Climb(h, hash, position, |level|, sibling + above)
         == Climb(h, Parent(h, hash, position, sibling), position / 2, (|level| + 1) / 2, above)
  {
    if sibling == [] {
      assert sibling + above == above;
    } else {
      assert (sibling + above)[1..] == above;
    }
  }

  /** The root and the audit path of a single leaf. */
  lemma OneLeaf(h: Hash, level: seq<Digest>, hash: Digest, path: seq<Digest>)
    requires |level| == 1
    ensures TreeHash(h, level) == level[0] && AuditPath(h, 0, level) == []
    ensures Climb(h, hash, 0, 1, path) == if path == [] then Some(hash) else None
  {
  }

  /** A digest and its sibling make the digest above them. */
  lemma ParentIsAbove(h: Hash, level: seq<Digest>, index: nat)
    requires index < |level| && |level| > 1
    ensures Parent(h, level[index], index, Sibling(level, index)) == Above(h, level, index / 2)
  {
  }

  /** The builder's own leaf and path always climb to its root. */
  lemma {:induction false} ClimbComplete(h: Hash, index: nat, level: seq<Digest>)
    requires index < |level|
    ensures Climb(h, level[index], index, |level|, AuditPath(h, index, level)) == Some(TreeHash(h, level))
    decreases |level|
  {
    hide AuditPath, TreeHash, Climb, PairUp, Above, Parent, Sibling;
    if |level| == 1 {
      OneLeaf(h, level, level[0], []);
    } else {
      var next := PairUp(h, level);
      PairUpAt(h, level, index / 2);
      ParentIsAbove(h, level, index);
      AuditPathPairUp(h, index, level);
      TreeHashPairUp(h, level);
      ClimbComplete(h, index / 2, next);
      ClimbStep(h, level[index], index, level, Sibling(level, index), AuditPath(h, index / 2, next));
    }
  }

  /** A path that climbs to a root takes one hash at every level that has a sibling. */
  lemma ClimbTakes(h: Hash, hash: Digest, position: nat, level: seq<Digest>, path: seq<Digest>, messages: iset<Buffer>)
    returns (sibling: seq<Digest>, above: seq<Digest>)
    requires position < |level| && |level| > 1
    requires Climb(h, hash, position, |level|, path).Some?
    requires ClimbHashed(h, hash, position, |level|, path, messages)
    ensures path == sibling + above && |sibling| == |Sibling(level, position)|
    ensures sibling != [] ==> ParentMessage(hash, position, sibling) in messages
    ensures ClimbHashed(h, Parent(h, hash, position, sibling), position / 2, (|level| + 1) / 2, above, messages)
  {
    var n := |Sibling(level, position)|;
    sibling, above := path[..n], path[n..];
    assert n == 0 ==> above == path;
  }

  /** With no collision among the messages hashed, nothing else climbs to it. */
  lemma {:induction false} ClimbSound(h: Hash, hash: Digest, index: nat, level: seq<Digest>, path: seq<Digest>, messages: iset<Buffer>)
    requires index < |level| && InjectiveOn(h, messages)
    requires NodesHashed(h, level, messages) && ClimbHashed(h, hash, index, |level|, path, messages)
    requires Climb(h, hash, index, |level|, path) == Some(TreeHash(h, level))
    ensures hash == level[index] && path == AuditPath(h, index, level)
    decreases |level|
  {
    hide AuditPath, TreeHash, Climb, NodesHashed, ClimbHashed, NodeMessage;
    if |level| == 1 {
      OneLeaf(h, level, hash, path);
    } else {
      var next := PairUp(h, level);
      AuditPathPairUp(h, index, level);
      TreeHashPairUp(h, level);
      NodesHashedPairUp(h, level, messages);
      var sibling, above := ClimbTakes(h, hash, index, level, path, messages);
      ClimbStep(h, hash, index, level, sibling, above);
      ClimbSound(h, Parent(h, hash, index, sibling), index / 2, next, above, messages);
      assert next[index / 2] == Above(h, level, index / 2);
      if sibling != [] {
        ParentsAgree(h, hash, index, level, sibling, messages);
      }
    }
  }

  lemma ParentsAgree(h: Hash, hash: Digest, index: nat, level: seq<Digest>, sibling: seq<Digest>, messages: iset<Buffer>)
    requires index < |level| && InjectiveOn(h, messages) && PairsHashed(level, messages)
    requires sibling != [] && |sibling| == |Sibling(level, index)|
    requires ParentMessage(hash, index, sibling) in messages
    requires Parent(h, hash, index, sibling) == Above(h, level, index / 2)
    ensures hash == level[index] && sibling == Sibling(level, index)
  {
    var q := index / 2;
    assert NodeMessage(level[2 * q], level[2 * q + 1]) in messages;
    if index % 2 == 1 {
      MessagesSeparate([], sibling[0], hash, level[2 * q], level[2 * q + 1]);
    } else {
      MessagesSeparate([], hash, sibling[0], level[2 * q], level[2 * q + 1]);
    }
  }

  /**
   Against the root of `data`, the check accepts exactly the leaf at that index
   with exactly the path the builder emits.
   */
  lemma InclusionExact(h: Hash, data: seq<Buffer>, leaf: Buffer, index: int, path: seq<Digest>, messages: iset<Buffer>)
    requires |data| > 0 && InjectiveOn(h, messages) && TreeHashed(h, data, messages)
    requires LeafMessage(leaf) in messages
    requires 0 <= index < |data| ==> ClimbHashed(h, LeafHash(h, leaf), index, |data|, path, messages)
    ensures Included(h, LeafHash(h, leaf), index, |data|, path, Root(h, data)) <==>
            0 <= index < |data| && leaf == data[index] && path == AuditPath(h, index, LeafHashes(h, data))
  {
    if 0 <= index < |data| {
      var leaves := LeafHashes(h, data);
      ClimbComplete(h, index, leaves);
      if Included(h, LeafHash(h, leaf), index, |data|, path, Root(h, data)) {
        ClimbSound(h, LeafHash(h, leaf), index, leaves, path, messages);
        assert LeafMessage(data[index]) in messages;
        assert leaf == LeafMessage(leaf)[1..] && data[index] == LeafMessage(data[index])[1..];
      }
    }
  }

  /** Two lists of leaves with one root are one list, whatever their lengths. */
  lemma {:induction false} RootUnique(h: Hash, a: seq<Buffer>, b: seq<Buffer>, messages: iset<Buffer>)
    requires |a| > 0 && |b| > 0 && InjectiveOn(h, messages)
    requires TreeHashed(h, a, messages) && TreeHashed(h, b, messages)
    requires Root(h, a) == Root(h, b)
    ensures a == b
    decreases |a|
  {
    if |a| == 1 && |b| == 1 {
      assert LeafMessage(a[0]) in messages && LeafMessage(b[0]) in messages;
      assert a[0] == LeafMessage(a[0])[1..] && b[0] == LeafMessage(b[0])[1..];
    } else if |a| == 1 {
      LeafIsNoNode(h, a, b, messages);
    } else if |b| == 1 {
      LeafIsNoNode(h, b, a, messages);
    } else {
      var k, m := Split(|a|), Split(|b|);
      Halves(h, a, messages);
      Halves(h, b, messages);
      MessagesSeparate([], Root(h, a[..k]), Root(h, a[k..]), Root(h, b[..m]), Root(h, b[m..]));
      RootUnique(h, a[..k], b[..m], messages);
      RootUnique(h, a[k..], b[m..], messages);
      assert a == a[..k] + a[k..] && b == b[..m] + b[m..];
    }
  }

  /** The root of two leaves or more is the hash of its two subtrees' roots. */
  lemma Halves(h: Hash, data: seq<Buffer>, messages: iset<Buffer>)
    requires |data| >= 2 && TreeHashed(h, data, messages)
    ensures var k := Split(|data|);
            && TreeHashed(h, data[..k], messages)
            && TreeHashed(h, data[k..], messages)
            && NodeMessage(Root(h, data[..k]), Root(h, data[k..])) in messages
            && Root(h, data) == h(NodeMessage(Root(h, data[..k]), Root(h, data[k..])))
  {
    hide LeafHashes, NodeMessage, LeafMessage;
    LeafHashesSplit(h, data, Split(|data|));
  }

  lemma LeafHashesSplit(h: Hash, data: seq<Buffer>, k: nat)
    requires k <= |data|
    ensures |LeafHashes(h, data)| == |data| && |LeafHashes(h, data[..k])| == k && |LeafHashes(h, data[k..])| == |data| - k
    ensures LeafHashes(h, data)[..k] == LeafHashes(h, data[..k])
    ensures LeafHashes(h, data)[k..] == LeafHashes(h, data[k..])
  {
  }

  lemma LeafIsNoNode(h: Hash, one: seq<Buffer>, many: seq<Buffer>, messages: iset<Buffer>)
    requires |one| == 1 && |many| >= 2 && InjectiveOn(h, messages)
    requires TreeHashed(h, one, messages) && TreeHashed(h, many, messages)
    ensures Root(h, one) != Root(h, many)
  {
    hide NodesHashed;
    var k := Split(|many|);
    Halves(h, many, messages);
    MessagesSeparate(one[0], Root(h, many[..k]), Root(h, many[k..]), Root(h, many[..k]), Root(h, many[k..]));
    assert LeafMessage(one[0]) in messages;
  }
}

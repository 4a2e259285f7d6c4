/** The walk up a manifest store's `parentOf` chain (`walk`, tools/src/carrier.ts). */
module Carrier {
  import opened ByteStrings

  /** A store's manifests by number: the proof each carries, and the manifest its one parent ingredient names. */
  datatype Store = Store(proofIn: nat -> Option<Buffer>, parentOf: nat -> Option<nat>)

  /** How many parents up from the active manifest the walk goes. */
  const MAX_DEPTH: nat := 16

  datatype CarriedProof = CarriedProof(bytes: Buffer, manifest: nat, depth: nat)

  /** The manifest `d` steps up the chain from the active one. */
  function Ancestor(store: Store, active: nat, d: nat): Option<nat> {
    if d == 0 then Some(active)
    else
      var child := Ancestor(store, active, d - 1);
      if child.None? then None else store.parentOf(child.value)
  }

  /** Whether the ancestor at depth `d` is another manifest than the active one and carries a proof. */
  predicate Carries(store: Store, active: nat, d: nat) {
    var m := Ancestor(store, active, d);
    m.Some? && m.value != active && store.proofIn(m.value).Some?
  }

  /** `found` is the proof at the least depth from 1 to `limit` that carries one, or none when there is none. */
  ghost predicate IsNearest(store: Store, active: nat, limit: nat, found: Option<CarriedProof>) {
    if found.None? then forall d | 1 <= d <= limit :: !Carries(store, active, d)
    else
      var proof := found.value;
      && 1 <= proof.depth <= limit
      && Carries(store, active, proof.depth)
      && Ancestor(store, active, proof.depth) == Some(proof.manifest)
      && store.proofIn(proof.manifest) == Some(proof.bytes)
      && forall d | 1 <= d < proof.depth :: !Carries(store, active, d)
  }

  /** The manifests at depths below `n`. */
  ghost predicate IsVisited(store: Store, active: nat, n: nat, visited: set<nat>) {
    forall m :: m in visited <==> exists d | 0 <= d < n :: Ancestor(store, active, d) == Some(m)
  }

  /** Once the chain meets a manifest it has been at, it meets no other. */
  lemma {:induction false} ClosedChain(store: Store, active: nat, n: nat, visited: set<nat>, e: nat)
    requires IsVisited(store, active, n, visited)
    requires Ancestor(store, active, n).None? || Ancestor(store, active, n).value in visited
    ensures Ancestor(store, active, e).None? || Ancestor(store, active, e).value in visited
  {
    if e < n {
    } else if e > n {
      ClosedChain(store, active, n, visited, e - 1);
      var below := Ancestor(store, active, e - 1);
      if below.Some? {
        var d :| 0 <= d < n && Ancestor(store, active, d) == below;
        assert Ancestor(store, active, e) == Ancestor(store, active, d + 1);
      }
    }
  }

  /**
   The proof in the active manifest, and the first proof up the chain. The loop ends
   on every store, cycles included, and the visited set hides no nearer proof.
   */
  method Walk(store: Store, active: nat) returns (own: Option<CarriedProof>, ancestor: Option<CarriedProof>)
    ensures own == if store.proofIn(active).None? then None else Some(CarriedProof(store.proofIn(active).value, active, 0))
    ensures IsNearest(store, active, MAX_DEPTH, ancestor)
  {
    var proof := store.proofIn(active);
    own := if proof.None? then None else Some(CarriedProof(proof.value, active, 0));
    ancestor := None;
    var visited: set<nat> := {active};
    var current := store.parentOf(active);
    var depth := 1;
    assert Ancestor(store, active, 0) == Some(active);
    while depth <= MAX_DEPTH && current.Some? && current.value !in visited
      invariant 1 <= depth <= MAX_DEPTH + 1
      invariant current == Ancestor(store, active, depth)
      invariant IsVisited(store, active, depth, visited) && active in visited
      invariant forall d | 1 <= d < depth :: !Carries(store, active, d)
      invariant forall m | m in visited && m != active :: store.proofIn(m).None?
      decreases MAX_DEPTH + 1 - depth
    {
      var at := current.value;
      assert forall m :: m in visited + {at} <==> exists d | 0 <= d < depth + 1 :: Ancestor(store, active, d) == Some(m) by {
        assert Ancestor(store, active, depth) == Some(at);
      }
      visited := visited + {at};
      var bytes := store.proofIn(at);
      if bytes.Some? {
        ancestor := Some(CarriedProof(bytes.value, at, depth));
        return;
      }
      current := store.parentOf(at);
      depth := depth + 1;
    }
    if depth <= MAX_DEPTH {
      forall d | depth <= d <= MAX_DEPTH
        ensures !Carries(store, active, d)
      {
        ClosedChain(store, active, depth, visited, d);
      }
    }
  }

  /** Two stores that agree on the manifests of the first one's chain. */
  ghost predicate AgreeOnChain(store: Store, other: Store, active: nat) {
    forall d | 0 <= d <= MAX_DEPTH && Ancestor(store, active, d).Some? ::
      var m := Ancestor(store, active, d).value;
      other.proofIn(m) == store.proofIn(m) && other.parentOf(m) == store.parentOf(m)
  }

  lemma {:induction false} SameChain(store: Store, other: Store, active: nat, d: nat)
    requires AgreeOnChain(store, other, active) && d <= MAX_DEPTH
    ensures Ancestor(other, active, d) == Ancestor(store, active, d)
    ensures Carries(other, active, d) <==> Carries(store, active, d)
  {
    if d > 0 {
      SameChain(store, other, active, d - 1);
      assert Ancestor(store, active, d - 1).Some? ==>
          var m := Ancestor(store, active, d - 1).value; other.parentOf(m) == store.parentOf(m);
    }
    assert Ancestor(store, active, d).Some? ==>
        var m := Ancestor(store, active, d).value; other.proofIn(m) == store.proofIn(m);
  }

  /** The nearest proof is one, and manifests off the chain cannot change it. */
  lemma OffChainChangesNothing(store: Store, other: Store, active: nat, a: Option<CarriedProof>, b: Option<CarriedProof>)
    requires AgreeOnChain(store, other, active)
    requires IsNearest(store, active, MAX_DEPTH, a) && IsNearest(other, active, MAX_DEPTH, b)
    ensures a == b
  {
    forall d | 0 <= d <= MAX_DEPTH
      ensures Ancestor(other, active, d) == Ancestor(store, active, d)
      ensures Carries(other, active, d) <==> Carries(store, active, d)
    {
      SameChain(store, other, active, d);
    }
    if a.Some? && b.Some? {
      assert a.value.depth == b.value.depth;
      assert Ancestor(store, active, a.value.depth).Some?;
    }
  }
}

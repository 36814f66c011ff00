/** The binary Merkle tree used for the para heads and for the channel roots: layers of hashes
    where an odd last node moves up unchanged, and a verifier that climbs from the leaf. */
module BinaryMerkle {
  import opened Hashing

  function NextLayer(layer: seq<H256>): (next: seq<H256>)
    ensures |next| == (|layer| + 1) / 2
  {
    if |layer| <= 1 then layer
    else [Join(layer[0], layer[1])] + NextLayer(layer[2..])
  }

  function LayerRoot(layer: seq<H256>): H256
    decreases |layer|
  {
    if layer == [] then Zero
    else if |layer| == 1 then layer[0]
    else LayerRoot(NextLayer(layer))
  }

  function MerkleRoot(leaves: seq<Blob>): H256 {
    LayerRoot(HashAll(leaves))
  }

  function Sibling(i: nat): nat {
    if i % 2 == 0 then i + 1 else i - 1
  }

  /** The sibling hashes on the way up; a node that moves up unchanged contributes none. */
  function PathItems(layer: seq<H256>, i: nat): seq<H256>
    requires i < |layer|
    decreases |layer|
  {
    if |layer| == 1 then []
    else
      (if Sibling(i) < |layer| then [layer[Sibling(i)]] else [])
      + PathItems(NextLayer(layer), i / 2)
  }

  function MerkleProof(leaves: seq<Blob>, i: nat): seq<H256>
    requires i < |leaves|
  {
    PathItems(HashAll(leaves), i)
  }

  /** One step of the climb: on which side the sibling goes. */
  function Up(h: H256, sibling: H256, position: nat, width: nat): H256 {
    if position % 2 == 1 || position + 1 == width then Join(sibling, h) else Join(h, sibling)
  }

  /** Folds the proof items into the leaf hash; `width` is the claimed width of the layer. */
  function Climb(h: H256, items: seq<H256>, position: nat, width: nat): H256
    requires position < width
    decreases |items|
  {
    if items == [] then h
    else Climb(Up(h, items[0], position, width), items[1..], position / 2, (width - 1) / 2 + 1)
  }

  predicate VerifyProof(root: H256, items: seq<H256>, numLeaves: nat, leafIndex: nat, leaf: Blob) {
    leafIndex < numLeaves && Climb(Keccak(leaf), items, leafIndex, numLeaves) == root
  }

  // ---------------------------------------------------------------- completeness

  lemma {:induction false} NextLayerAt(layer: seq<H256>, k: nat)
    requires 2 * k < |layer|
    ensures k < |NextLayer(layer)|
    ensures NextLayer(layer)[k] ==
            if 2 * k + 1 < |layer| then Join(layer[2 * k], layer[2 * k + 1]) else layer[2 * k]
  {
    if |layer| > 1 && k > 0 {
      NextLayerAt(layer[2..], k - 1);
    }
  }

  /** The verifier's position and width are the true ones, or both nodes are last in their layer. */
  predicate InStep(i: nat, size: nat, position: nat, width: nat) {
    || (position == i < size == width)
    || (i + 1 == size && position + 1 == width)
  }

  lemma InStepAbove(i: nat, size: nat, position: nat, width: nat)
    requires InStep(i, size, position, width)
    ensures InStep(i / 2, (size + 1) / 2, position / 2, (width - 1) / 2 + 1)
    ensures Sibling(i) >= size ==> InStep(i / 2, (size + 1) / 2, position, width)
  {
  }

  /** The verifier puts the sibling on the left exactly when it is the left sibling. */
  lemma UpFromEven(layer: seq<H256>, k: nat, position: nat, width: nat)
    requires InStep(2 * k, |layer|, position, width)
    ensures k < |NextLayer(layer)|
    ensures 2 * k + 1 < |layer| ==> Up(layer[2 * k], layer[2 * k + 1], position, width) == NextLayer(layer)[k]
    ensures 2 * k + 1 >= |layer| ==> layer[2 * k] == NextLayer(layer)[k]
  {
    NextLayerAt(layer, k);
  }

  lemma UpFromOdd(layer: seq<H256>, k: nat, position: nat, width: nat)
    requires InStep(2 * k + 1, |layer|, position, width)
    ensures k < |NextLayer(layer)|
    ensures Up(layer[2 * k + 1], layer[2 * k], position, width) == NextLayer(layer)[k]
  {
    NextLayerAt(layer, k);
  }

  lemma UpIsNextLayer(layer: seq<H256>, i: nat, position: nat, width: nat)
    requires InStep(i, |layer|, position, width)
    ensures i / 2 < |NextLayer(layer)|
    ensures Sibling(i) < |layer| ==> Up(layer[i], layer[Sibling(i)], position, width) == NextLayer(layer)[i / 2]
    ensures Sibling(i) >= |layer| ==> layer[i] == NextLayer(layer)[i / 2]
  {
    if i % 2 == 0 {
      UpFromEven(layer, i / 2, position, width);
    } else {
      UpFromOdd(layer, i / 2, position, width);
    }
  }

  /** One layer of the climb; a node that moves up unchanged uses no item. */
  lemma ClimbOneLayer(layer: seq<H256>, i: nat, position: nat, width: nat)
    requires InStep(i, |layer|, position, width) && |layer| > 1
    ensures var (up, items) := (NextLayer(layer)[i / 2], PathItems(NextLayer(layer), i / 2));
            Climb(layer[i], PathItems(layer, i), position, width) ==
            if Sibling(i) < |layer| then Climb(up, items, position / 2, (width - 1) / 2 + 1)
            else Climb(up, items, position, width)
  {
    UpIsNextLayer(layer, i, position, width);
    var items := PathItems(NextLayer(layer), i / 2);
    if Sibling(i) < |layer| {
      assert ([layer[Sibling(i)]] + items)[1..] == items;
    } else {
      assert [] + items == items;
    }
  }

  /** The climb reaches the root of the layer, even though the verifier's position and width
      fall behind the true ones once a node has moved up unchanged. */
  lemma {:induction false} ClimbReachesRoot(layer: seq<H256>, i: nat, position: nat, width: nat)
    requires InStep(i, |layer|, position, width)
    ensures Climb(layer[i], PathItems(layer, i), position, width) == LayerRoot(layer)
    decreases |layer|
  {
    if |layer| > 1 {
      InStepAbove(i, |layer|, position, width);
      ClimbOneLayer(layer, i, position, width);
      if Sibling(i) < |layer| {
        ClimbReachesRoot(NextLayer(layer), i / 2, position / 2, (width - 1) / 2 + 1);
      } else {
        ClimbReachesRoot(NextLayer(layer), i / 2, position, width);
      }
    }
  }

  /** Every generated proof verifies, for any list of leaves and any index. */
  lemma ProofsVerify(leaves: seq<Blob>, i: nat)
    requires i < |leaves|
    ensures VerifyProof(MerkleRoot(leaves), MerkleProof(leaves, i), |leaves|, i, leaves[i])
  {
    ClimbReachesRoot(HashAll(leaves), i, i, |leaves|);
  }

  // ---------------------------------------------------------------- soundness

  lemma {:induction false} ClimbKeepsNodes(h: H256, items: seq<H256>, position: nat, width: nat)
    requires position < width
    ensures Occurs(h, Climb(h, items, position, width))
    decreases |items|
  {
    if items != [] {
      var up := Up(h, items[0], position, width);
      ClimbKeepsNodes(up, items[1..], position / 2, (width - 1) / 2 + 1);
      assert Occurs(h, up) by {
        assert Occurs(h, h);
      }
      OccursTransitive(h, up, Climb(h, items, position, width));
    }
  }

  /** Whatever sizes, positions and items are supplied, a verified leaf lies below the root. */
  lemma VerifiedLeafIsBelowRoot(root: H256, items: seq<H256>, numLeaves: nat, leafIndex: nat, leaf: Blob)
    requires VerifyProof(root, items, numLeaves, leafIndex, leaf)
    ensures leaf in Frontier(root) <==> !IsPair(leaf)
  {
    ClimbKeepsNodes(Keccak(leaf), items, leafIndex, numLeaves);
    FrontierIsNonPairNodes(root, leaf);
  }

  // ---------------------------------------------------------------- the root determines the leaves

  function FrontierOfLayer(layer: seq<H256>): seq<Blob> {
    if layer == [] then [] else Frontier(layer[0]) + FrontierOfLayer(layer[1..])
  }

  lemma {:induction false} NextLayerKeepsFrontier(layer: seq<H256>)
    ensures FrontierOfLayer(NextLayer(layer)) == FrontierOfLayer(layer)
  {
    if |layer| > 1 {
      NextLayerKeepsFrontier(layer[2..]);
      assert NextLayer(layer)[1..] == NextLayer(layer[2..]);
      assert layer[1..][1..] == layer[2..];
    }
  }

  lemma {:induction false} LayerRootKeepsFrontier(layer: seq<H256>)
    ensures Frontier(LayerRoot(layer)) == FrontierOfLayer(layer)
    decreases |layer|
  {
    if |layer| == 1 {
      assert FrontierOfLayer(layer[1..]) == [];
    } else if |layer| > 1 {
      NextLayerKeepsFrontier(layer);
      LayerRootKeepsFrontier(NextLayer(layer));
    }
  }

  lemma {:induction false} FrontierOfHashes(leaves: seq<Blob>)
    requires NoPairs(leaves)
    ensures FrontierOfLayer(HashAll(leaves)) == leaves
  {
    if leaves != [] {
      assert HashAll(leaves)[1..] == HashAll(leaves[1..]);
      FrontierOfHashes(leaves[1..]);
      assert [leaves[0]] + leaves[1..] == leaves;
    }
  }

  /** Reading the root back gives the leaves it was built from. */
  lemma RootReadsBack(leaves: seq<Blob>)
    requires NoPairs(leaves)
    ensures Frontier(MerkleRoot(leaves)) == leaves
  {
    LayerRootKeepsFrontier(HashAll(leaves));
    FrontierOfHashes(leaves);
  }

  /** A leaf has an accepted proof under an honest root exactly when it is one of the leaves. */
  lemma ProvableIffMember(leaves: seq<Blob>, leaf: Blob)
    requires NoPairs(leaves) && !IsPair(leaf)
    ensures (exists items, n, i :: VerifyProof(MerkleRoot(leaves), items, n, i, leaf)) <==> leaf in leaves
  {
    RootReadsBack(leaves);
    if leaf in leaves {
      var i :| 0 <= i < |leaves| && leaves[i] == leaf;
      ProofsVerify(leaves, i);
    }
    forall items, n, i | VerifyProof(MerkleRoot(leaves), items, n, i, leaf)
      ensures leaf in leaves
    {
      VerifiedLeafIsBelowRoot(MerkleRoot(leaves), items, n, i, leaf);
    }
  }
}

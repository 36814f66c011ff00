/** The Merkle mountain range of `pallet_mmr`: perfect trees over runs of leaves, bagged from
    the right into one root, with proofs for any set of leaves at once. */
module Mmr {
  import opened Hashing

  /** A tree whose tips name leaf indices. */
  datatype Shape = Tip(index: nat) | Fork(left: Shape, right: Shape)

  /** Leaf indices from left to right. */
  function Tips(s: Shape): (indices: seq<nat>)
    ensures |indices| > 0
  {
    match s
    case Tip(i) => [i]
    case Fork(l, r) => Tips(l) + Tips(r)
  }

  /** The size of the tallest mountain over `n` leaves: the largest power of two up to `n`. */
  function PeakSize(n: nat): (p: nat)
    requires n > 0
    ensures 0 < p <= n < 2 * p
  {
    if n == 1 then 1 else 2 * PeakSize(n / 2)
  }

  function Mountain(start: nat, size: nat): Shape
    requires size > 0
    decreases size
  {
    if size == 1 then Tip(start)
    else Fork(Mountain(start, size / 2), Mountain(start + size / 2, size - size / 2))
  }

  /** The mountains over `n` leaves; the mountains to the right are bagged first. */
  function Range(start: nat, n: nat): Shape
    requires n > 0
    decreases n
  {
    var p := PeakSize(n);
    if p == n then Mountain(start, n)
    else Fork(Range(start + p, n - p), Mountain(start, p))
  }

  predicate Within(s: Shape, n: nat) {
    match s
    case Tip(i) => i < n
    case Fork(l, r) => Within(l, n) && Within(r, n)
  }

  function RootOf(s: Shape, leaves: seq<Blob>): H256
    requires Within(s, |leaves|)
  {
    match s
    case Tip(i) => Keccak(leaves[i])
    case Fork(l, r) => Join(RootOf(l, leaves), RootOf(r, leaves))
  }

  /** The root hash kept by the pallet; it is zero before the first leaf. */
  function MmrRoot(leaves: seq<Blob>): H256 {
    if leaves == [] then Zero
    else
      RangeWithin(0, |leaves|, |leaves|);
      RootOf(Range(0, |leaves|), leaves)
  }

  datatype MmrProof = MmrProof(leafIndices: seq<nat>, leafCount: nat, items: seq<H256>)

  /** Whether some claimed leaf lies in the tree. */
  predicate Covers(s: Shape, claimed: set<nat>) {
    match s
    case Tip(i) => i in claimed
    case Fork(l, r) => Covers(l, claimed) || Covers(r, claimed)
  }

  /** The proof items: the root of each largest subtree that holds no claimed leaf. */
  function ProofItems(s: Shape, leaves: seq<Blob>, claimed: set<nat>): seq<H256>
    requires Within(s, |leaves|)
  {
    if !Covers(s, claimed) then [RootOf(s, leaves)]
    else
      match s
      case Tip(_) => []
      case Fork(l, r) => ProofItems(l, leaves, claimed) + ProofItems(r, leaves, claimed)
  }

  /** Recomputes the root from the claimed leaves and the items; returns the unused items. */
  function Compute(s: Shape, claims: map<nat, Blob>, items: seq<H256>): Option<(H256, seq<H256>)> {
    if !Covers(s, claims.Keys) then
      if items == [] then None else Some((items[0], items[1..]))
    else
      match s
      case Tip(i) => Some((Keccak(claims[i]), items))
      case Fork(l, r) =>
        var left := Compute(l, claims, items);
        if left.None? then None
        else
          var right := Compute(r, claims, left.value.1);
          if right.None? then None
          else Some((Join(left.value.0, right.value.0), right.value.1))
  }

  predicate Distinct(indices: seq<nat>) {
    forall i, j :: 0 <= i < j < |indices| ==> indices[i] != indices[j]
  }

  function Claims(indices: seq<nat>, leaves: seq<Blob>): (claims: map<nat, Blob>)
    requires |indices| == |leaves| && Distinct(indices)
    ensures forall k :: 0 <= k < |indices| ==> indices[k] in claims && claims[indices[k]] == leaves[k]
    ensures forall i :: i in claims ==> i in indices
  {
    map k | 0 <= k < |indices| :: indices[k] := leaves[k]
  }

  predicate VerifyLeavesProof(root: H256, leaves: seq<Blob>, proof: MmrProof) {
    && |leaves| == |proof.leafIndices|
    && proof.leafCount > 0
    && (forall k :: 0 <= k < |proof.leafIndices| ==> proof.leafIndices[k] < proof.leafCount)
    && Distinct(proof.leafIndices)
    && Compute(Range(0, proof.leafCount), Claims(proof.leafIndices, leaves), proof.items) == Some((root, []))
  }

  predicate ValidIndices(indices: seq<nat>, count: nat) {
    Distinct(indices) && forall k :: 0 <= k < |indices| ==> indices[k] < count
  }

  /** The leaves at the given indices and the proof for them under the current root. */
  function GenerateProof(leaves: seq<Blob>, indices: seq<nat>): (r: (seq<Blob>, MmrProof))
    requires leaves != [] && ValidIndices(indices, |leaves|)
    ensures |r.0| == |indices| && forall k :: 0 <= k < |indices| ==> r.0[k] == leaves[indices[k]]
  {
    RangeWithin(0, |leaves|, |leaves|);
    (seq(|indices|, k requires 0 <= k < |indices| => leaves[indices[k]]),
     MmrProof(indices, |leaves|,
              ProofItems(Range(0, |leaves|), leaves, set k | 0 <= k < |indices| :: indices[k])))
  }

  // ---------------------------------------------------------------- tips of the range

  lemma {:induction false} MountainTips(start: nat, size: nat)
    requires size > 0
    ensures |Tips(Mountain(start, size))| == size
    ensures forall i :: i in Tips(Mountain(start, size)) <==> start <= i < start + size
    decreases size
  {
    if size > 1 {
      MountainTips(start, size / 2);
      MountainTips(start + size / 2, size - size / 2);
    }
  }

  lemma {:induction false} RangeTips(start: nat, n: nat)
    requires n > 0
    ensures |Tips(Range(start, n))| == n
    ensures forall i :: i in Tips(Range(start, n)) <==> start <= i < start + n
    decreases n
  {
    var p := PeakSize(n);
    MountainTips(start, p);
    if p < n {
      RangeTips(start + p, n - p);
    }
  }

  lemma {:induction false} WithinTips(s: Shape, n: nat)
    ensures Within(s, n) <==> forall i :: i in Tips(s) ==> i < n
  {
    match s
    case Tip(i) =>
      assert i in Tips(s);
    case Fork(l, r) =>
      WithinTips(l, n);
      WithinTips(r, n);
      assert forall i :: i in Tips(s) <==> i in Tips(l) || i in Tips(r);
  }

  lemma RangeWithin(start: nat, n: nat, count: nat)
    requires n > 0 && start + n <= count
    ensures Within(Range(start, n), count)
  {
    RangeTips(start, n);
    WithinTips(Range(start, n), count);
  }

  // ---------------------------------------------------------------- completeness

  lemma {:induction false} ComputeRebuildsRoot(s: Shape, leaves: seq<Blob>, claims: map<nat, Blob>, rest: seq<H256>)
    requires Within(s, |leaves|)
    requires forall i :: i in claims && i < |leaves| ==> claims[i] == leaves[i]
    ensures Compute(s, claims, ProofItems(s, leaves, claims.Keys) + rest) == Some((RootOf(s, leaves), rest))
  {
    if Covers(s, claims.Keys) {
      match s
      case Tip(_) =>
        assert ProofItems(s, leaves, claims.Keys) + rest == rest;
      case Fork(l, r) =>
        var right := ProofItems(r, leaves, claims.Keys) + rest;
        assert ProofItems(s, leaves, claims.Keys) + rest == ProofItems(l, leaves, claims.Keys) + right;
        ComputeRebuildsRoot(l, leaves, claims, right);
        ComputeRebuildsRoot(r, leaves, claims, rest);
    }
  }

  /** Every generated proof, for any set of leaves, verifies under the root of the same leaves. */
  lemma ProofsVerify(leaves: seq<Blob>, indices: seq<nat>)
    requires leaves != [] && ValidIndices(indices, |leaves|)
    ensures VerifyLeavesProof(MmrRoot(leaves), GenerateProof(leaves, indices).0, GenerateProof(leaves, indices).1)
  {
    var (claimed, proof) := GenerateProof(leaves, indices);
    var claims := Claims(indices, claimed);
    var shape := Range(0, |leaves|);
    RangeWithin(0, |leaves|, |leaves|);
    assert claims.Keys == set k | 0 <= k < |indices| :: indices[k];
    ComputeRebuildsRoot(shape, leaves, claims, []);
    assert proof.items + [] == proof.items;
  }

  // ---------------------------------------------------------------- soundness

  lemma {:induction false} ComputeKeepsClaims(s: Shape, claims: map<nat, Blob>, items: seq<H256>, i: nat)
    requires i in claims && i in Tips(s)
    ensures Covers(s, claims.Keys)
    ensures Compute(s, claims, items).Some? ==> Occurs(Keccak(claims[i]), Compute(s, claims, items).value.0)
  {
    match s
    case Tip(_) =>
    case Fork(l, r) =>
      if i in Tips(l) {
        ComputeKeepsClaims(l, claims, items, i);
      } else {
        assert i in Tips(r);
        var left := Compute(l, claims, items);
        ComputeKeepsClaims(r, claims, if left.Some? then left.value.1 else [], i);
      }
  }

  /** Whatever leaf count, positions and items are supplied, every verified leaf is the content of a
      node below the root: of a leaf, if it is not shaped like an inner node, and of an inner node
      otherwise. */
  lemma VerifiedLeavesAreBelowRoot(root: H256, leaves: seq<Blob>, proof: MmrProof)
    requires VerifyLeavesProof(root, leaves, proof)
    ensures forall k :: 0 <= k < |leaves| ==>
              Occurs(Keccak(leaves[k]), root) && (leaves[k] in Frontier(root) <==> !IsPair(leaves[k]))
  {
    var claims := Claims(proof.leafIndices, leaves);
    var shape := Range(0, proof.leafCount);
    RangeTips(0, proof.leafCount);
    forall k | 0 <= k < |leaves|
      ensures Occurs(Keccak(leaves[k]), root) && (leaves[k] in Frontier(root) <==> !IsPair(leaves[k]))
    {
      ComputeKeepsClaims(shape, claims, proof.items, proof.leafIndices[k]);
      FrontierIsNonPairNodes(root, leaves[k]);
    }
  }

  // ---------------------------------------------------------------- the root determines the leaves

  function LeavesAt(leaves: seq<Blob>, indices: seq<nat>): (r: seq<Blob>)
    requires forall k :: 0 <= k < |indices| ==> indices[k] < |leaves|
    ensures |r| == |indices| && forall k :: 0 <= k < |indices| ==> r[k] == leaves[indices[k]]
  {
    seq(|indices|, k requires 0 <= k < |indices| => leaves[indices[k]])
  }

  lemma {:induction false} RootReadsBack(s: Shape, leaves: seq<Blob>)
    requires Within(s, |leaves|) && NoPairs(leaves)
    ensures forall k :: 0 <= k < |Tips(s)| ==> Tips(s)[k] < |leaves|
    ensures Frontier(RootOf(s, leaves)) == LeavesAt(leaves, Tips(s))
  {
    WithinTips(s, |leaves|);
    match s
    case Tip(_) =>
    case Fork(l, r) =>
      RootReadsBack(l, leaves);
      RootReadsBack(r, leaves);
      assert LeavesAt(leaves, Tips(s)) == LeavesAt(leaves, Tips(l)) + LeavesAt(leaves, Tips(r));
  }

  /** The contents below an MMR root are the leaves of the MMR, each exactly once by position. */
  lemma MmrRootReadsBack(leaves: seq<Blob>)
    requires NoPairs(leaves)
    ensures |Frontier(MmrRoot(leaves))| == |leaves|
    ensures forall b :: b in Frontier(MmrRoot(leaves)) <==> b in leaves
  {
    if leaves != [] {
      var shape := Range(0, |leaves|);
      RangeWithin(0, |leaves|, |leaves|);
      RangeTips(0, |leaves|);
      RootReadsBack(shape, leaves);
      var front := LeavesAt(leaves, Tips(shape));
      forall b | b in leaves
        ensures b in front
      {
        var i :| 0 <= i < |leaves| && leaves[i] == b;
        assert i in Tips(shape);
        var k :| 0 <= k < |Tips(shape)| && Tips(shape)[k] == i;
        assert front[k] == b;
      }
      assert forall b :: b in front ==> b in leaves;
    }
  }

  /** Two leaf histories with the same root are the same history; in particular histories of
      different length never share a root. */
  lemma MmrRootInjective(a: seq<Blob>, b: seq<Blob>)
    requires NoPairs(a) && NoPairs(b) && MmrRoot(a) == MmrRoot(b)
    ensures a == b
  {
    MmrRootReadsBack(a);
    MmrRootReadsBack(b);
    assert |a| == |b|;
    if a != [] {
      var shape := Range(0, |a|);
      RangeWithin(0, |a|, |a|);
      RangeTips(0, |a|);
      RootReadsBack(shape, a);
      RootReadsBack(shape, b);
      forall i | 0 <= i < |a|
        ensures a[i] == b[i]
      {
        assert i in Tips(shape);
        var k :| 0 <= k < |Tips(shape)| && Tips(shape)[k] == i;
        assert LeavesAt(a, Tips(shape))[k] == a[i];
        assert LeavesAt(b, Tips(shape))[k] == b[i];
      }
    }
  }

  /** A leaf has an accepted proof under an honest root exactly when it is one of the leaves. */
  lemma ProvableIffMember(leaves: seq<Blob>, leaf: Blob)
    requires NoPairs(leaves) && !IsPair(leaf)
    ensures (exists proof :: VerifyLeavesProof(MmrRoot(leaves), [leaf], proof)) <==> leaf in leaves
  {
    MmrRootReadsBack(leaves);
    if leaf in leaves {
      var i :| 0 <= i < |leaves| && leaves[i] == leaf;
      ProofsVerify(leaves, [i]);
      assert GenerateProof(leaves, [i]).0 == [leaf];
    }
    forall proof | VerifyLeavesProof(MmrRoot(leaves), [leaf], proof)
      ensures leaf in leaves
    {
      VerifiedLeavesAreBelowRoot(MmrRoot(leaves), [leaf], proof);
      assert [leaf][0] == leaf;
    }
  }

  // ---------------------------------------------------------------- exactness at the true leaf count

  /** With the true shape, the claims and the items that lead to the root are the true ones. */
  lemma {:induction false} ComputeIsExact(
    s: Shape, leaves: seq<Blob>, claims: map<nat, Blob>, items: seq<H256>, rest: seq<H256>)
    requires Within(s, |leaves|) && Compute(s, claims, items) == Some((RootOf(s, leaves), rest))
    ensures items == ProofItems(s, leaves, claims.Keys) + rest
    ensures forall i :: i in Tips(s) && i in claims ==> i < |leaves| && claims[i] == leaves[i]
  {
    match s
    case Tip(_) =>
      assert !Covers(s, claims.Keys) ==> items == [items[0]] + items[1..];
    case Fork(l, r) =>
      if !Covers(s, claims.Keys) {
        assert items == [items[0]] + items[1..];
        UncoveredHasNoClaim(s, claims.Keys);
      } else {
        var left := Compute(l, claims, items).value;
        ComputeIsExact(l, leaves, claims, items, left.1);
        ComputeIsExact(r, leaves, claims, left.1, rest);
      }
  }

  lemma {:induction false} UncoveredHasNoClaim(s: Shape, claimed: set<nat>)
    requires !Covers(s, claimed)
    ensures forall i :: i in Tips(s) ==> i !in claimed
  {
    match s
    case Tip(_) =>
    case Fork(l, r) =>
      UncoveredHasNoClaim(l, claimed);
      UncoveredHasNoClaim(r, claimed);
  }

  lemma VerifiedAtTrueCountIsGenerated(leaves: seq<Blob>, claimed: seq<Blob>, proof: MmrProof)
    requires leaves != [] && proof.leafCount == |leaves| && VerifyLeavesProof(MmrRoot(leaves), claimed, proof)
    ensures ValidIndices(proof.leafIndices, |leaves|) && (claimed, proof) == GenerateProof(leaves, proof.leafIndices)
  {
    var shape, claims := Range(0, |leaves|), Claims(proof.leafIndices, claimed);
    RangeWithin(0, |leaves|, |leaves|);
    RangeTips(0, |leaves|);
    ComputeIsExact(shape, leaves, claims, proof.items, []);
    assert claims.Keys == set k | 0 <= k < |proof.leafIndices| :: proof.leafIndices[k];
    forall k | 0 <= k < |claimed|
      ensures claimed[k] == leaves[proof.leafIndices[k]]
    {
      assert proof.leafIndices[k] in claims && proof.leafIndices[k] in Tips(shape);
    }
    assert claimed == GenerateProof(leaves, proof.leafIndices).0;
    var items := ProofItems(shape, leaves, claims.Keys);
    assert items + [] == items;
    assert proof == MmrProof(proof.leafIndices, |leaves|, items);
  }

  /** Under an honest root and the true leaf count, verification is exact: it accepts the leaves at the
      given positions with the generated items, and nothing else, whatever the contents of the leaves. */
  lemma VerifiesAtTrueCountIff(leaves: seq<Blob>, claimed: seq<Blob>, proof: MmrProof)
    requires leaves != [] && proof.leafCount == |leaves|
    ensures VerifyLeavesProof(MmrRoot(leaves), claimed, proof) <==>
            ValidIndices(proof.leafIndices, |leaves|) && (claimed, proof) == GenerateProof(leaves, proof.leafIndices)
  {
    if VerifyLeavesProof(MmrRoot(leaves), claimed, proof) {
      VerifiedAtTrueCountIsGenerated(leaves, claimed, proof);
    }
    if ValidIndices(proof.leafIndices, |leaves|) {
      ProofsVerify(leaves, proof.leafIndices);
    }
  }

  // ---------------------------------------------------------------- the limits of verification

  /** A proof for no leaves verifies under any root. */
  lemma EmptyClaimVerifies(root: H256)
    ensures VerifyLeavesProof(root, [], MmrProof([], 1, [root]))
  {
    assert Range(0, 1) == Tip(0);
    assert !Covers(Tip(0), Claims([], []).Keys);
    assert [root][1..] == [];
  }

  /** Verification alone does not separate leaves from inner nodes: under the root of two or more
      leaves, the content of the root node verifies as the leaf of a one-leaf range. */
  lemma InnerNodeContentVerifies(leaves: seq<Blob>)
    requires |leaves| >= 2
    ensures MmrRoot(leaves).Keccak? && IsPair(MmrRoot(leaves).preimage)
    ensures VerifyLeavesProof(MmrRoot(leaves), [MmrRoot(leaves).preimage], MmrProof([0], 1, []))
  {
    RangeWithin(0, |leaves|, |leaves|);
    RangeForks(0, |leaves|);
    var content := MmrRoot(leaves).preimage;
    assert Range(0, 1) == Tip(0);
    var claims := Claims([0], [content]);
    assert [0][0] in claims && claims[[0][0]] == [content][0];
  }

  lemma RangeForks(start: nat, n: nat)
    requires n >= 2
    ensures Range(start, n).Fork?
  {
  }

  /** With at most one leaf there is no inner node, and only the leaf verifies. */
  lemma SmallRangesVerifyOnlyLeaves(leaves: seq<Blob>, claimed: seq<Blob>, proof: MmrProof)
    requires NoPairs(leaves) && |leaves| < 2 && VerifyLeavesProof(MmrRoot(leaves), claimed, proof)
    ensures forall k :: 0 <= k < |claimed| ==> claimed[k] in leaves
  {
    VerifiedLeavesAreBelowRoot(MmrRoot(leaves), claimed, proof);
    if |leaves| == 1 {
      assert Range(0, 1) == Tip(0);
      assert MmrRoot(leaves) == Keccak(leaves[0]);
    }
  }

  predicate VerifiesNonLeaf(leaves: seq<Blob>, claimed: seq<Blob>, proof: MmrProof) {
    VerifyLeavesProof(MmrRoot(leaves), claimed, proof) && exists k :: 0 <= k < |claimed| && claimed[k] !in leaves
  }

  /** A claim that is no leaf has a proof that verifies if and only if there are at least two leaves. */
  lemma NonLeafVerifiesIff(leaves: seq<Blob>)
    requires NoPairs(leaves)
    ensures (exists claimed, proof :: VerifiesNonLeaf(leaves, claimed, proof)) <==> |leaves| >= 2
  {
    if |leaves| >= 2 {
      InnerNodeContentVerifies(leaves);
      var claimed := [MmrRoot(leaves).preimage];
      assert claimed[0] !in leaves;
      assert VerifiesNonLeaf(leaves, claimed, MmrProof([0], 1, []));
    } else {
      forall claimed, proof | VerifyLeavesProof(MmrRoot(leaves), claimed, proof)
        ensures !VerifiesNonLeaf(leaves, claimed, proof)
      {
        SmallRangesVerifyOnlyLeaves(leaves, claimed, proof);
      }
    }
  }
}

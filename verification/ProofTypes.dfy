/** The proof records exchanged between the sender, the relayer and the receiver, and what it
    means for a record on its own to verify. */
module ProofTypes {
  import opened Hashing
  import opened Mmr
  import opened Codec
  import BinaryMerkle

  datatype ChannelMerkleProof = ChannelMerkleProof(
    root: H256, proof: seq<H256>, numLeaves: nat, leafIndex: nat, leaf: H256)

  datatype ParaMerkleProof = ParaMerkleProof(
    root: H256, proof: seq<H256>, numLeaves: nat, leafIndex: nat, leaf: ParaLeaf)

  datatype XcmpProof = XcmpProof(
    stage1: (MmrProof, seq<Blob>),
    stage2: ParaMerkleProof,
    stage3: ChannelMerkleProof,
    stage4: (MmrProof, seq<Blob>))

  predicate ChannelProofVerifies(c: ChannelMerkleProof) {
    BinaryMerkle.VerifyProof(c.root, c.proof, c.numLeaves, c.leafIndex, EncodeHash(c.leaf))
  }

  predicate HeadProofVerifies(p: ParaMerkleProof) {
    BinaryMerkle.VerifyProof(p.root, p.proof, p.numLeaves, p.leafIndex, EncodeParaLeaf(p.leaf))
  }
}

/** The symbolic hash shared by all chains.

    A hash is a term that remembers its preimage, so distinct preimages have distinct hashes.
    Preimages are strings of words and of embedded 32-byte hashes. There is no tag that
    separates leaves from inner nodes: an inner node is the hash of two embedded hashes, and
    a leaf with that content would have the same hash. */
module Hashing {

  datatype Option<+T> = None | Some(value: T)

  datatype Item = Word(value: nat) | Digest(hash: H256)

  type Blob = seq<Item>

  datatype H256 = Zero | Opaque(id: nat) | Keccak(preimage: Blob)

  /** The content of an inner node: two embedded hashes and nothing else. */
  predicate IsPair(b: Blob) {
    |b| == 2 && b[0].Digest? && b[1].Digest?
  }

  function Join(left: H256, right: H256): H256 {
    Keccak([Digest(left), Digest(right)])
  }

  /** Reads a root back into the leaf contents below it, left to right. */
  function Frontier(h: H256): seq<Blob> {
    match h
    case Keccak(b) =>
      if IsPair(b) then Frontier(b[0].hash) + Frontier(b[1].hash) else [b]
    case _ => []
  }

  /** `node` is `h` or one of the nodes below it. */
  predicate Occurs(node: H256, h: H256) {
    || node == h
    || (h.Keccak? && IsPair(h.preimage)
        && (Occurs(node, h.preimage[0].hash) || Occurs(node, h.preimage[1].hash)))
  }

  /** The leaf contents below a root are exactly the contents of the nodes below it that are
      not inner nodes. */
  lemma {:induction false} FrontierIsNonPairNodes(h: H256, b: Blob)
    ensures b in Frontier(h) <==> Occurs(Keccak(b), h) && !IsPair(b)
  {
    if h.Keccak? && IsPair(h.preimage) {
      FrontierIsNonPairNodes(h.preimage[0].hash, b);
      FrontierIsNonPairNodes(h.preimage[1].hash, b);
    }
  }

  lemma {:induction false} OccursTransitive(a: H256, b: H256, c: H256)
    requires Occurs(a, b) && Occurs(b, c)
    ensures Occurs(a, c)
  {
    if b != c {
      if Occurs(b, c.preimage[0].hash) {
        OccursTransitive(a, b, c.preimage[0].hash);
      } else {
        OccursTransitive(a, b, c.preimage[1].hash);
      }
    }
  }

  /** The Keccak hash of each leaf. */
  function HashAll(leaves: seq<Blob>): (hashes: seq<H256>)
    ensures |hashes| == |leaves|
    ensures forall i :: 0 <= i < |leaves| ==> hashes[i] == Keccak(leaves[i])
  {
    seq(|leaves|, i requires 0 <= i < |leaves| => Keccak(leaves[i]))
  }

  /** No leaf content could be mistaken for an inner node. */
  predicate NoPairs(leaves: seq<Blob>) {
    forall i :: 0 <= i < |leaves| ==> !IsPair(leaves[i])
  }
}

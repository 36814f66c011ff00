/** The sending parachain: one message leaf per block and channel, the channel tree over the
    channel MMR roots, and the runtime API that serves roots and proofs. */
module Sender {
  import opened Hashing
  import opened Codec
  import opened ProofTypes
  import BinaryMerkle
  import Mmr

  // ---------------------------------------------------------------- aggregation of outbound pages

  /** Outbound pages by destination para and page index. */
  type OutboundQueue = map<(nat, nat), seq<Byte>>

  const U16_VALUES: nat := 0x1_0000
  const MESSAGE_PREFIX: seq<Byte> := [1, 2, 3]
  const PARA_A: nat := 1
  const PARA_B: nat := 2
  const LEAF_VERSION: nat := 0

  /** Some page index that a 16-bit counter can reach is missing. */
  predicate HasGap(queue: OutboundQueue, para: nat) {
    exists i :: 0 <= i < U16_VALUES && (para, i) !in queue
  }

  /** `n` pages are present from index 0 on, and page `n` is missing. */
  predicate IsRun(queue: OutboundQueue, para: nat, n: nat) {
    && (forall i :: 0 <= i < n ==> (para, i) in queue)
    && (para, n) !in queue
  }

  function RunLength(queue: OutboundQueue, para: nat, start: nat := 0): (n: nat)
    requires exists i :: start <= i < U16_VALUES && (para, i) !in queue
    ensures start <= n < U16_VALUES && (para, n) !in queue
    ensures forall i :: start <= i < n ==> (para, i) in queue
    decreases U16_VALUES - start
  {
    if (para, start) !in queue then start else RunLength(queue, para, start + 1)
  }

  function Pages(queue: OutboundQueue, para: nat, n: nat): seq<Byte>
    requires forall i :: 0 <= i < n ==> (para, i) in queue
  {
    if n == 0 then [] else Pages(queue, para, n - 1) + queue[(para, n - 1)]
  }

  function Aggregated(queue: OutboundQueue, para: nat): seq<Byte>
    requires HasGap(queue, para)
  {
    MESSAGE_PREFIX + Pages(queue, para, RunLength(queue, para))
  }

  /** The aggregation loop. It yields no value exactly when every 16-bit page index is taken,
      because the counter would then overflow. */
  method GetXcmpMessages(queue: OutboundQueue, para: nat) returns (r: Option<seq<Byte>>)
    ensures r.Some? <==> HasGap(queue, para)
    ensures r.None? <==> forall i :: 0 <= i < 0x1_0000 ==> (para, i) in queue
    ensures r.Some? ==> r.value == Aggregated(queue, para)
  {
    var buffer := MESSAGE_PREFIX;
    var counter := 0;
    while (para, counter) in queue
      invariant 0 <= counter < U16_VALUES
      invariant forall i :: 0 <= i < counter ==> (para, i) in queue
      invariant buffer == MESSAGE_PREFIX + Pages(queue, para, counter)
      decreases U16_VALUES - counter
    {
      if counter + 1 == U16_VALUES {
        return None;
      }
      buffer := buffer + queue[(para, counter)];
      counter := counter + 1;
    }
    RunIsUnique(queue, para, counter, RunLength(queue, para));
    return Some(buffer);
  }

  lemma RunIsUnique(queue: OutboundQueue, para: nat, m: nat, n: nat)
    requires IsRun(queue, para, m) && IsRun(queue, para, n)
    ensures m == n
  {
  }

  lemma {:induction false} PagesAgree(q1: OutboundQueue, q2: OutboundQueue, para: nat, n: nat)
    requires forall i :: 0 <= i < n ==> (para, i) in q1 && (para, i) in q2 && q1[(para, i)] == q2[(para, i)]
    ensures Pages(q1, para, n) == Pages(q2, para, n)
  {
    if n > 0 {
      PagesAgree(q1, q2, para, n - 1);
    }
  }

  /** The aggregate is the prefix and the maximal run of pages; it depends on no page of another
      para and on no page past the first gap. */
  lemma AggregateDependsOnRunOnly(q1: OutboundQueue, q2: OutboundQueue, para: nat, n: nat)
    requires n < U16_VALUES && IsRun(q1, para, n) && IsRun(q2, para, n)
    requires forall i :: 0 <= i < n ==> q1[(para, i)] == q2[(para, i)]
    ensures HasGap(q1, para) && HasGap(q2, para)
    ensures Aggregated(q1, para) == MESSAGE_PREFIX + Pages(q1, para, n)
    ensures Aggregated(q2, para) == Aggregated(q1, para)
  {
    RunIsUnique(q1, para, n, RunLength(q1, para));
    RunIsUnique(q2, para, n, RunLength(q2, para));
    PagesAgree(q1, q2, para, n);
  }

  /** Without a page at index 0 only the prefix remains. */
  lemma AggregateOfNoPages(q: OutboundQueue, para: nat)
    requires (para, 0) !in q
    ensures HasGap(q, para) && Aggregated(q, para) == [1, 2, 3]
  {
    AggregateDependsOnRunOnly(q, q, para, 0);
  }

  lemma PagesExtend(q: OutboundQueue, para: nat, n: nat, page: seq<Byte>)
    requires forall i :: 0 <= i < n ==> (para, i) in q
    ensures Pages(q[(para, n) := page], para, n + 1) == Pages(q, para, n) + page
  {
    PagesAgree(q, q[(para, n) := page], para, n);
  }

  lemma AggregateOfRun(q: OutboundQueue, para: nat, n: nat)
    requires n < U16_VALUES && IsRun(q, para, n)
    ensures HasGap(q, para) && Aggregated(q, para) == MESSAGE_PREFIX + Pages(q, para, n)
  {
    AggregateDependsOnRunOnly(q, q, para, n);
  }

  /** A page put at the end of the run goes to the end of the aggregate. Together with the two lemmas
      above this determines the aggregate of every queue. */
  lemma AggregateExtends(q: OutboundQueue, para: nat, n: nat, page: seq<Byte>)
    requires IsRun(q, para, n) && (para, n + 1) !in q && n + 1 < 0x1_0000
    ensures var q' := q[(para, n) := page];
            HasGap(q, para) && HasGap(q', para) && Aggregated(q', para) == Aggregated(q, para) + page
  {
    AggregateOfRun(q, para, n);
    AggregateOfRun(q[(para, n) := page], para, n + 1);
    PagesExtend(q, para, n, page);
  }

  // ---------------------------------------------------------------- message history

  datatype SenderBlock = SenderBlock(outbound: OutboundQueue, parentNumber: nat, parentHash: H256)

  datatype Sent = Sent(messageHash: H256, blockNumber: nat)

  /** The leaves of the two channel MMRs and the deposited `XcmpMessageSent` events. */
  datatype SenderState = SenderState(leavesA: seq<Blob>, leavesB: seq<Blob>, events: seq<Sent>)

  const GENESIS := SenderState([], [], [])

  predicate Ready(b: SenderBlock) {
    HasGap(b.outbound, PARA_A) && HasGap(b.outbound, PARA_B)
  }

  function LeafData(b: SenderBlock, para: nat): MessageLeaf
    requires HasGap(b.outbound, para)
  {
    MessageLeaf(Aggregated(b.outbound, para), LEAF_VERSION, b.parentNumber, b.parentHash)
  }

  /** The leaf of a channel carries the pages of the channel's own para, whatever pages other paras have,
      with the parent of the block. */
  lemma LeafCarriesOwnPara(b: SenderBlock, q: OutboundQueue, para: nat, n: nat)
    requires n < 0x1_0000 && IsRun(b.outbound, para, n) && IsRun(q, para, n)
    requires forall i :: 0 <= i < n ==> b.outbound[(para, i)] == q[(para, i)]
    ensures HasGap(b.outbound, para) && HasGap(q, para)
    ensures LeafData(b, para) == MessageLeaf(Aggregated(q, para), 0, b.parentNumber, b.parentHash)
  {
    AggregateDependsOnRunOnly(b.outbound, q, para, n);
  }

  function SentEvent(leaf: MessageLeaf): Sent {
    Sent(Keccak([Word(|leaf.messages|)] + Words(leaf.messages)), leaf.parentNumber)
  }

  /** One leaf for each channel and one event for each leaf, in channel order. */
  function AppendLeaves(s: SenderState, a: MessageLeaf, b: MessageLeaf): SenderState {
    SenderState(s.leavesA + [EncodeMessageLeaf(a)], s.leavesB + [EncodeMessageLeaf(b)],
                s.events + [SentEvent(a), SentEvent(b)])
  }

  function AppendAll(pairs: seq<(MessageLeaf, MessageLeaf)>): SenderState {
    if pairs == [] then GENESIS
    else
      var last := pairs[|pairs| - 1];
      AppendLeaves(AppendAll(pairs[..|pairs| - 1]), last.0, last.1)
  }

  function LeafPairs(blocks: seq<SenderBlock>): (r: seq<(MessageLeaf, MessageLeaf)>)
    requires AllReady(blocks)
    ensures |r| == |blocks|
    ensures forall i :: 0 <= i < |blocks| ==> r[i] == (LeafData(blocks[i], PARA_A), LeafData(blocks[i], PARA_B))
  {
    seq(|blocks|, i requires 0 <= i < |blocks| => (LeafData(blocks[i], PARA_A), LeafData(blocks[i], PARA_B)))
  }

  /** The sender after a run of blocks. */
  function Produce(blocks: seq<SenderBlock>): SenderState
    requires AllReady(blocks)
  {
    AppendAll(LeafPairs(blocks))
  }

  predicate AllReady(blocks: seq<SenderBlock>) {
    forall i :: 0 <= i < |blocks| ==> Ready(blocks[i])
  }

  class SenderRuntime {
    var leavesA: seq<Blob>
    var leavesB: seq<Blob>
    var events: seq<Sent>

    ghost function View(): SenderState
      reads this
    {
      SenderState(leavesA, leavesB, events)
    }

    constructor ()
      ensures View() == GENESIS
    {
      leavesA, leavesB, events := [], [], [];
    }

    /** Both MMR instances ask their stuffer instance for leaf data at the start of a block; a
        block whose aggregation overflows is not produced. */
    method OnInitialize(b: SenderBlock) returns (produced: bool)
      modifies this
      ensures produced <==> Ready(b)
      ensures produced ==> View() == AppendLeaves(old(View()), LeafData(b, PARA_A), LeafData(b, PARA_B))
      ensures produced ==>
                && leavesA == old(leavesA)
                   + [EncodeMessageLeaf(MessageLeaf(Aggregated(b.outbound, 1), 0, b.parentNumber, b.parentHash))]
                && leavesB == old(leavesB)
                   + [EncodeMessageLeaf(MessageLeaf(Aggregated(b.outbound, 2), 0, b.parentNumber, b.parentHash))]
      ensures !produced ==> View() == old(View())
    {
      var a := GetXcmpMessages(b.outbound, PARA_A);
      var c := GetXcmpMessages(b.outbound, PARA_B);
      if a.None? || c.None? {
        return false;
      }
      var leafA := MessageLeaf(a.value, LEAF_VERSION, b.parentNumber, b.parentHash);
      var leafB := MessageLeaf(c.value, LEAF_VERSION, b.parentNumber, b.parentHash);
      events := events + [SentEvent(leafA)];
      leavesA := leavesA + [EncodeMessageLeaf(leafA)];
      events := events + [SentEvent(leafB)];
      leavesB := leavesB + [EncodeMessageLeaf(leafB)];
      return true;
    }
  }

  /** The message leaves a channel should hold after a run of blocks. */
  function MessageLeaves(blocks: seq<SenderBlock>, para: nat): (leaves: seq<Blob>)
    requires forall i :: 0 <= i < |blocks| ==> HasGap(blocks[i].outbound, para)
    ensures |leaves| == |blocks| && NoPairs(leaves)
    ensures forall i :: 0 <= i < |blocks| ==> leaves[i] == EncodeMessageLeaf(LeafData(blocks[i], para))
  {
    seq(|blocks|, i requires 0 <= i < |blocks| => EncodeMessageLeaf(LeafData(blocks[i], para)))
  }

  /** Producing one more block is one more start of a block. */
  lemma ProduceExtends(blocks: seq<SenderBlock>, b: SenderBlock)
    requires AllReady(blocks) && Ready(b)
    ensures AllReady(blocks + [b])
    ensures Produce(blocks + [b]) == AppendLeaves(Produce(blocks), LeafData(b, PARA_A), LeafData(b, PARA_B))
  {
    var pairs := LeafPairs(blocks + [b]);
    assert pairs[..|blocks|] == LeafPairs(blocks);
  }

  lemma {:induction false} AppendedLeaves(pairs: seq<(MessageLeaf, MessageLeaf)>)
    ensures var s := AppendAll(pairs);
            && |s.leavesA| == |s.leavesB| == |pairs| && |s.events| == 2 * |pairs|
            && forall i :: 0 <= i < |pairs| ==>
                 && s.leavesA[i] == EncodeMessageLeaf(pairs[i].0) && s.leavesB[i] == EncodeMessageLeaf(pairs[i].1)
                 && s.events[2 * i] == SentEvent(pairs[i].0) && s.events[2 * i + 1] == SentEvent(pairs[i].1)
  {
    if pairs != [] {
      AppendedLeaves(pairs[..|pairs| - 1]);
    }
  }

  lemma LeavesAreMessageLeaves(blocks: seq<SenderBlock>)
    requires AllReady(blocks)
    ensures Produce(blocks).leavesA == MessageLeaves(blocks, PARA_A)
    ensures Produce(blocks).leavesB == MessageLeaves(blocks, PARA_B)
  {
    AppendedLeaves(LeafPairs(blocks));
  }

  /** Leaf `i` of channel A is the aggregate for para 1 at block `i` with that block's parent, and leaf `i`
      of channel B is the one for para 2, for every run of blocks. */
  lemma LeavesFollowBlocks(blocks: seq<SenderBlock>, i: nat)
    requires AllReady(blocks) && i < |blocks|
    ensures |Produce(blocks).leavesA| == |Produce(blocks).leavesB| == |blocks|
    ensures var b := blocks[i];
            && Produce(blocks).leavesA[i]
               == EncodeMessageLeaf(MessageLeaf(Aggregated(b.outbound, 1), 0, b.parentNumber, b.parentHash))
            && Produce(blocks).leavesB[i]
               == EncodeMessageLeaf(MessageLeaf(Aggregated(b.outbound, 2), 0, b.parentNumber, b.parentHash))
  {
    LeavesAreMessageLeaves(blocks);
  }

  /** Each block deposits one event per channel, in channel order, with the hash of the encoded aggregate
      and the number of the parent. */
  lemma EventsFollowBlocks(blocks: seq<SenderBlock>, i: nat)
    requires AllReady(blocks) && i < |blocks|
    ensures |Produce(blocks).events| == 2 * |blocks|
    ensures var (a, b) := (Aggregated(blocks[i].outbound, 1), Aggregated(blocks[i].outbound, 2));
            && Produce(blocks).events[2 * i] == Sent(Keccak([Word(|a|)] + Words(a)), blocks[i].parentNumber)
            && Produce(blocks).events[2 * i + 1] == Sent(Keccak([Word(|b|)] + Words(b)), blocks[i].parentNumber)
  {
    AppendedLeaves(LeafPairs(blocks));
  }

  /** The history after `n` blocks is the first `n` leaves of the history after more blocks. */
  lemma HistoryIsPrefix(blocks: seq<SenderBlock>, para: nat, n: nat)
    requires n <= |blocks|
    requires forall i :: 0 <= i < |blocks| ==> HasGap(blocks[i].outbound, para)
    ensures MessageLeaves(blocks[..n], para) == MessageLeaves(blocks, para)[..n]
  {
  }

  /** The MMR root of a channel determines the whole message history of the channel: every page
      aggregate and every parent block, hence also the number of blocks. */
  lemma ChannelRootPinsHistory(b1: seq<SenderBlock>, b2: seq<SenderBlock>, para: nat)
    requires forall i :: 0 <= i < |b1| ==> HasGap(b1[i].outbound, para)
    requires forall i :: 0 <= i < |b2| ==> HasGap(b2[i].outbound, para)
    requires Mmr.MmrRoot(MessageLeaves(b1, para)) == Mmr.MmrRoot(MessageLeaves(b2, para))
    ensures |b1| == |b2|
    ensures forall i :: 0 <= i < |b1| ==> LeafData(b1[i], para) == LeafData(b2[i], para)
  {
    Mmr.MmrRootInjective(MessageLeaves(b1, para), MessageLeaves(b2, para));
    forall i | 0 <= i < |b1|
      ensures LeafData(b1[i], para) == LeafData(b2[i], para)
    {
      assert MessageLeaves(b1, para)[i] == MessageLeaves(b2, para)[i];
      EncodeMessageLeafInjective(LeafData(b1[i], para), LeafData(b2[i], para));
    }
  }

  /** Along one run of blocks no two heights share an MMR root in either channel. */
  lemma ChannelRootsNeverRepeat(blocks: seq<SenderBlock>, m: nat, n: nat)
    requires AllReady(blocks) && m < n <= |blocks|
    ensures Mmr.MmrRoot(Produce(blocks[..m]).leavesA) != Mmr.MmrRoot(Produce(blocks[..n]).leavesA)
    ensures Mmr.MmrRoot(Produce(blocks[..m]).leavesB) != Mmr.MmrRoot(Produce(blocks[..n]).leavesB)
  {
    LeavesAreMessageLeaves(blocks[..m]);
    LeavesAreMessageLeaves(blocks[..n]);
    var s, t := Produce(blocks[..m]), Produce(blocks[..n]);
    if Mmr.MmrRoot(s.leavesA) == Mmr.MmrRoot(t.leavesA) {
      Mmr.MmrRootInjective(s.leavesA, t.leavesA);
    }
    if Mmr.MmrRoot(s.leavesB) == Mmr.MmrRoot(t.leavesB) {
      Mmr.MmrRootInjective(s.leavesB, t.leavesB);
    }
  }

  // ---------------------------------------------------------------- channel tree

  /** The channel roots as tree leaves. */
  function EncodedRoots(roots: seq<H256>): (r: seq<Blob>)
    ensures |r| == |roots| && NoPairs(r)
    ensures forall i :: 0 <= i < |roots| ==> r[i] == EncodeHash(roots[i])
  {
    seq(|roots|, i requires 0 <= i < |roots| => EncodeHash(roots[i]))
  }

  function ChannelTreeRoot(roots: seq<H256>): H256 {
    BinaryMerkle.MerkleRoot(EncodedRoots(roots))
  }

  function ChannelTreeProof(roots: seq<H256>, index: nat): ChannelMerkleProof
    requires index < |roots|
  {
    var leaves := EncodedRoots(roots);
    ChannelMerkleProof(BinaryMerkle.MerkleRoot(leaves), BinaryMerkle.MerkleProof(leaves, index),
                       |roots|, index, roots[index])
  }

  function ChannelRoots(s: SenderState): seq<H256> {
    [Mmr.MmrRoot(s.leavesA), Mmr.MmrRoot(s.leavesB)]
  }

  /** The root that goes into the header digest. */
  function CollectRoots(s: SenderState): H256 {
    ChannelTreeRoot(ChannelRoots(s))
  }

  /** The proof served for any channel id: always for index 0. */
  function GenMerkleProof(s: SenderState, channelId: nat): Option<ChannelMerkleProof> {
    Some(ChannelTreeProof(ChannelRoots(s), 0))
  }

  /** Sender, prover and receiver agree for any list of channel roots and any index: the proof
      carries the digest root, it verifies, and a root verifies under it exactly when it is one
      of the channel roots. */
  lemma ChannelTreeAgreement(roots: seq<H256>, index: nat)
    requires index < |roots|
    ensures ChannelTreeProof(roots, index).root == ChannelTreeRoot(roots)
    ensures ChannelTreeProof(roots, index).leaf == roots[index]
    ensures ChannelProofVerifies(ChannelTreeProof(roots, index))
    ensures forall c: ChannelMerkleProof ::
              c.root == ChannelTreeRoot(roots) && ChannelProofVerifies(c) ==> c.leaf in roots
  {
    BinaryMerkle.ProofsVerify(EncodedRoots(roots), index);
    forall c: ChannelMerkleProof | c.root == ChannelTreeRoot(roots) && ChannelProofVerifies(c)
      ensures c.leaf in roots
    {
      VerifiedChannelIsMember(roots, c);
    }
  }

  lemma VerifiedChannelIsMember(roots: seq<H256>, c: ChannelMerkleProof)
    requires c.root == ChannelTreeRoot(roots) && ChannelProofVerifies(c)
    ensures c.leaf in roots
  {
    var leaves := EncodedRoots(roots);
    BinaryMerkle.RootReadsBack(leaves);
    BinaryMerkle.VerifiedLeafIsBelowRoot(c.root, c.proof, c.numLeaves, c.leafIndex, EncodeHash(c.leaf));
    var i :| 0 <= i < |leaves| && leaves[i] == EncodeHash(c.leaf);
    assert EncodeHash(roots[i])[0] == EncodeHash(c.leaf)[0];
  }

  /** The digest root holds both channels and nothing else: a channel proof for a leaf verifies under it if
      and only if the leaf is the root of the messages for para 1 or of those for para 2. */
  lemma DigestHoldsBothChannels(blocks: seq<SenderBlock>, leaf: H256)
    requires AllReady(blocks)
    ensures (exists c: ChannelMerkleProof ::
               c.root == CollectRoots(Produce(blocks)) && c.leaf == leaf && ChannelProofVerifies(c))
            <==> leaf == Mmr.MmrRoot(MessageLeaves(blocks, 1)) || leaf == Mmr.MmrRoot(MessageLeaves(blocks, 2))
  {
    var roots := ChannelRoots(Produce(blocks));
    LeavesAreMessageLeaves(blocks);
    ChannelTreeAgreement(roots, 0);
    ChannelTreeAgreement(roots, 1);
    if leaf == roots[0] {
      assert ChannelTreeProof(roots, 0).leaf == leaf;
    } else if leaf == roots[1] {
      assert ChannelTreeProof(roots, 1).leaf == leaf;
    }
  }

  /** Whatever channel id is asked for, the proof served is the one for the channel of para 1. */
  lemma ServedChannelIsFirst(blocks: seq<SenderBlock>, channelId: nat)
    requires AllReady(blocks)
    ensures GenMerkleProof(Produce(blocks), channelId).Some?
    ensures var c := GenMerkleProof(Produce(blocks), channelId).value;
            && c.root == CollectRoots(Produce(blocks)) && c.leaf == Mmr.MmrRoot(MessageLeaves(blocks, 1))
            && c.numLeaves == 2 && c.leafIndex == 0 && ChannelProofVerifies(c)
  {
    LeavesAreMessageLeaves(blocks);
    ChannelTreeAgreement(ChannelRoots(Produce(blocks)), 0);
  }

  // ---------------------------------------------------------------- MMR runtime API

  datatype ApiError = GetRoot | GenerateProofError | Verify

  datatype ApiResult<T> = Served(value: T) | Failed(error: ApiError)

  function MmrRootApi(s: SenderState, mmrId: nat): ApiResult<H256> {
    match mmrId
    case 0 => Served(Mmr.MmrRoot(s.leavesA))
    case 1 => Served(Mmr.MmrRoot(s.leavesB))
    case _ => Failed(GetRoot)
  }

  /** The MMR starts with block 1, so block `n` added leaf `n - 1`. */
  predicate BlocksInRange(numbers: seq<nat>, best: nat) {
    && (forall k :: 0 <= k < |numbers| ==> 1 <= numbers[k] <= best)
    && Mmr.Distinct(numbers)
  }

  function LeafIndices(numbers: seq<nat>, best: nat): (r: seq<nat>)
    requires BlocksInRange(numbers, best)
    ensures |r| == |numbers| && Mmr.ValidIndices(r, best)
    ensures forall k :: 0 <= k < |r| ==> r[k] == numbers[k] - 1
  {
    seq(|numbers|, k requires 0 <= k < |numbers| => numbers[k] - 1)
  }

  function GenerateFrom(leaves: seq<Blob>, numbers: seq<nat>, best: Option<nat>): ApiResult<(seq<Blob>, Mmr.MmrProof)> {
    var count := if best.Some? then best.value else |leaves|;
    if 1 <= count <= |leaves| && BlocksInRange(numbers, count) then
      Served(Mmr.GenerateProof(leaves[..count], LeafIndices(numbers, count)))
    else Failed(GenerateProofError)
  }

  function GenerateProofApi(s: SenderState, numbers: seq<nat>, best: Option<nat>, mmrId: nat)
    : ApiResult<(seq<Blob>, Mmr.MmrProof)>
  {
    match mmrId
    case 0 => GenerateFrom(s.leavesA, numbers, best)
    case 1 => GenerateFrom(s.leavesB, numbers, best)
    case _ => Failed(GenerateProofError)
  }

  function VerifyProofStateless(root: H256, leaves: seq<Blob>, proof: Mmr.MmrProof): ApiResult<()> {
    if Mmr.VerifyLeavesProof(root, leaves, proof) then Served(()) else Failed(Verify)
  }

  /** The height a proof is requested for: the current one unless another is named. */
  function RequestedHeight(best: Option<nat>, current: nat): nat {
    if best.Some? then best.value else current
  }

  /** A proof generated for some height verifies against the root of that height and comes with
      the leaves of the requested blocks. */
  lemma GeneratedAtVerifies(leaves: seq<Blob>, numbers: seq<nat>, count: nat)
    requires 1 <= count <= |leaves| && BlocksInRange(numbers, count)
    ensures var r := Mmr.GenerateProof(leaves[..count], LeafIndices(numbers, count));
            && Mmr.VerifyLeavesProof(Mmr.MmrRoot(leaves[..count]), r.0, r.1)
            && |r.0| == |numbers| && forall k :: 0 <= k < |numbers| ==> r.0[k] == leaves[numbers[k] - 1]
  {
    Mmr.ProofsVerify(leaves[..count], LeafIndices(numbers, count));
  }

  /** A proof is served exactly for distinct blocks up to the requested height; it verifies against
      the root of that height and comes with the leaves of the requested blocks. */
  lemma GeneratedFromVerifies(leaves: seq<Blob>, numbers: seq<nat>, best: Option<nat>)
    ensures var count := RequestedHeight(best, |leaves|);
            var r := GenerateFrom(leaves, numbers, best);
            && (r.Served? <==> 1 <= count <= |leaves| && BlocksInRange(numbers, count))
            && (r.Served? ==>
                  && Mmr.VerifyLeavesProof(Mmr.MmrRoot(leaves[..count]), r.value.0, r.value.1)
                  && |r.value.0| == |numbers|
                  && forall k :: 0 <= k < |numbers| ==> r.value.0[k] == leaves[numbers[k] - 1])
  {
    var count := RequestedHeight(best, |leaves|);
    if 1 <= count <= |leaves| && BlocksInRange(numbers, count) {
      GeneratedAtVerifies(leaves, numbers, count);
    }
  }

  predicate ServesChannel(mmrId: nat) {
    mmrId < 2
  }

  function ParaOf(mmrId: nat): nat {
    if mmrId == 0 then PARA_A else PARA_B
  }

  /** The API reads the message leaves of the channel it is asked for. */
  lemma ApiReadsChannel(blocks: seq<SenderBlock>, numbers: seq<nat>, best: Option<nat>, mmrId: nat)
    requires AllReady(blocks) && ServesChannel(mmrId)
    ensures MmrRootApi(Produce(blocks), mmrId) == Served(Mmr.MmrRoot(MessageLeaves(blocks, ParaOf(mmrId))))
    ensures GenerateProofApi(Produce(blocks), numbers, best, mmrId)
            == GenerateFrom(MessageLeaves(blocks, ParaOf(mmrId)), numbers, best)
  {
    LeavesAreMessageLeaves(blocks);
  }

  /** The root reported at an earlier height is the root of the leaves up to that height. */
  lemma ReportedRoot(blocks: seq<SenderBlock>, count: nat, mmrId: nat)
    requires AllReady(blocks) && ServesChannel(mmrId) && count <= |blocks|
    ensures MmrRootApi(Produce(blocks[..count]), mmrId)
            == Served(Mmr.MmrRoot(MessageLeaves(blocks, ParaOf(mmrId))[..count]))
  {
    ApiReadsChannel(blocks[..count], [], None, mmrId);
    HistoryIsPrefix(blocks, ParaOf(mmrId), count);
  }

  /** The blocks are distinct and lie between the first block and the height. */
  lemma BlocksInRangeIff(numbers: seq<nat>, best: nat)
    ensures BlocksInRange(numbers, best) <==>
            && (forall k :: 0 <= k < |numbers| ==> 1 <= numbers[k] <= best)
            && (forall k, l :: 0 <= k < l < |numbers| ==> numbers[k] != numbers[l])
  {
  }

  /** The root is served for channels 0 and 1, and is that of the messages for para 1 and 2. */
  lemma RootApiServes(blocks: seq<SenderBlock>, mmrId: nat)
    requires AllReady(blocks)
    ensures MmrRootApi(Produce(blocks), mmrId) ==
            if mmrId == 0 then Served(Mmr.MmrRoot(MessageLeaves(blocks, 1)))
            else if mmrId == 1 then Served(Mmr.MmrRoot(MessageLeaves(blocks, 2)))
            else Failed(GetRoot)
  {
    LeavesAreMessageLeaves(blocks);
  }

  /** After any run of blocks, the API serves proofs for channels 0 and 1 and for distinct blocks up to the
      requested height, and fails with one error otherwise. */
  lemma ProofApiServesIff(blocks: seq<SenderBlock>, numbers: seq<nat>, best: Option<nat>, mmrId: nat)
    requires AllReady(blocks)
    ensures var count := if best.Some? then best.value else |blocks|;
            var r := GenerateProofApi(Produce(blocks), numbers, best, mmrId);
            && (r.Served? <==> mmrId < 2 && 1 <= count <= |blocks| && BlocksInRange(numbers, count))
            && (r.Failed? ==> r.error == GenerateProofError)
  {
    if ServesChannel(mmrId) {
      ApiReadsChannel(blocks, numbers, best, mmrId);
      GeneratedFromVerifies(MessageLeaves(blocks, ParaOf(mmrId)), numbers, best);
    }
  }

  /** The leaves that the API serves are the message leaves of the requested blocks for para 1 or 2, and
      they verify statelessly against the root that it reported at the requested height. */
  lemma ApiRoundTrip(blocks: seq<SenderBlock>, numbers: seq<nat>, best: Option<nat>, mmrId: nat)
    requires AllReady(blocks) && GenerateProofApi(Produce(blocks), numbers, best, mmrId).Served?
    ensures var count := if best.Some? then best.value else |blocks|;
            var r := GenerateProofApi(Produce(blocks), numbers, best, mmrId).value;
            var leaves := if mmrId == 0 then MessageLeaves(blocks, 1) else MessageLeaves(blocks, 2);
            && count <= |blocks| && MmrRootApi(Produce(blocks[..count]), mmrId).Served?
            && VerifyProofStateless(MmrRootApi(Produce(blocks[..count]), mmrId).value, r.0, r.1) == Served(())
            && |r.0| == |numbers|
            && forall k :: 0 <= k < |numbers| ==> 1 <= numbers[k] <= count && r.0[k] == leaves[numbers[k] - 1]
  {
    var count := RequestedHeight(best, |blocks|);
    ProofApiServesIff(blocks, numbers, best, mmrId);
    ApiReadsChannel(blocks, numbers, best, mmrId);
    GeneratedFromVerifies(MessageLeaves(blocks, ParaOf(mmrId)), numbers, best);
    ReportedRoot(blocks, count, mmrId);
  }

  /** Stateless verification under an honest root: a leaf has a proof that is served if and only if it is
      one of the leaves, and every other answer is the verification error. */
  lemma StatelessVerificationIsExact(leaves: seq<Blob>, leaf: Blob)
    requires NoPairs(leaves) && !IsPair(leaf)
    ensures (exists proof :: VerifyProofStateless(Mmr.MmrRoot(leaves), [leaf], proof) == Served(())) <==> leaf in leaves
    ensures forall proof :: leaf !in leaves ==> VerifyProofStateless(Mmr.MmrRoot(leaves), [leaf], proof) == Failed(Verify)
  {
    Mmr.ProvableIffMember(leaves, leaf);
    if leaf in leaves {
      var proof :| Mmr.VerifyLeavesProof(Mmr.MmrRoot(leaves), [leaf], proof);
      assert VerifyProofStateless(Mmr.MmrRoot(leaves), [leaf], proof) == Served(());
    }
  }
}

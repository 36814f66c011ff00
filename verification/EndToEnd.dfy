/** The three chains and the relayer together. */
module EndToEnd {
  import opened Hashing
  import opened Codec
  import opened ProofTypes
  import opened Sender
  import opened Relayer
  import opened RelayerAnswers
  import opened RelayerProgress
  import BinaryMerkle
  import Mmr
  import Receiver

  /** The para id of the sender on the relay chain. */
  const SENDER_PARA: nat := 1000

  /** A relay block adds one Beefy leaf and has a list of para heads. */
  datatype RelayBlock = RelayBlock(leaf: BeefyLeaf, heads: seq<ParaLeaf>)

  /** The blocks and headers of the sender, and the blocks of the relay chain. */
  datatype World = World(blocks: seq<SenderBlock>, headers: seq<Header>, relay: seq<RelayBlock>)

  function EncodedHeads(heads: seq<ParaLeaf>): (r: seq<Blob>)
    ensures |r| == |heads| && NoPairs(r)
    ensures forall i :: 0 <= i < |heads| ==> r[i] == EncodeParaLeaf(heads[i])
  {
    seq(|heads|, i requires 0 <= i < |heads| => EncodeParaLeaf(heads[i]))
  }

  function HeadsRoot(heads: seq<ParaLeaf>): H256 {
    BinaryMerkle.MerkleRoot(EncodedHeads(heads))
  }

  function HeadsProof(heads: seq<ParaLeaf>, i: nat): ParaMerkleProof
    requires i < |heads|
  {
    ParaMerkleProof(HeadsRoot(heads), BinaryMerkle.MerkleProof(EncodedHeads(heads), i), |heads|, i, heads[i])
  }

  function BeefyLeaves(relay: seq<RelayBlock>): (r: seq<Blob>)
    ensures |r| == |relay| && NoPairs(r)
    ensures forall i :: 0 <= i < |relay| ==> r[i] == EncodeBeefyLeaf(relay[i].leaf)
  {
    seq(|relay|, i requires 0 <= i < |relay| => EncodeBeefyLeaf(relay[i].leaf))
  }

  function BeefyRoot(relay: seq<RelayBlock>): H256 {
    Mmr.MmrRoot(BeefyLeaves(relay))
  }

  /** The channel tree root of the sender after `j` blocks. */
  function DigestRoot(w: World, j: nat): H256
    requires AllReady(w.blocks) && j <= |w.blocks|
  {
    CollectRoots(Produce(w.blocks[..j]))
  }

  /** A sender header carries the channel tree root of its own block. */
  predicate HeadersCarryRoots(w: World)
    requires AllReady(w.blocks)
  {
    && |w.headers| == |w.blocks|
    && forall j :: 0 <= j < |w.blocks| ==>
         ExtractChannelRoot(w.headers[j].digest) == Some(DigestRoot(w, j + 1))
  }

  predicate IsSenderHeader(w: World, headData: Blob) {
    exists j :: 0 <= j < |w.headers| && headData == EncodeHeader(w.headers[j])
  }

  /** Para heads registered for the sender are headers of the sender. */
  predicate HeadsAreHeaders(w: World, heads: seq<ParaLeaf>) {
    forall i :: 0 <= i < |heads| && heads[i].paraId == SENDER_PARA ==> IsSenderHeader(w, heads[i].headData)
  }

  predicate IsHeadsRoot(w: World, root: H256) {
    exists k :: 0 <= k < |w.relay| && root == HeadsRoot(w.relay[k].heads)
  }

  predicate NamesHeads(w: World, n: nat)
    requires n < |w.relay|
  {
    IsHeadsRoot(w, w.relay[n].leaf.leafExtra)
  }

  predicate LeavesNameHeads(w: World) {
    forall n :: 0 <= n < |w.relay| ==> NamesHeads(w, n)
  }

  predicate Honest(w: World) {
    && AllReady(w.blocks)
    && HeadersCarryRoots(w)
    && (forall n :: 0 <= n < |w.relay| ==> HeadsAreHeaders(w, w.relay[n].heads))
    && LeavesNameHeads(w)
  }

  /** A root provided to the receiver at a block start is a Beefy root of some relay height. */
  predicate IsRelayRoot(w: World, root: H256) {
    exists n :: 0 <= n <= |w.relay| && root == BeefyRoot(w.relay[..n])
  }

  predicate RootsFromRelay(w: World, calls: seq<Receiver.Call>) {
    forall i :: 0 <= i < |calls| && calls[i].BlockStart? && calls[i].provided.Some? ==>
      IsRelayRoot(w, calls[i].provided.value)
  }

  /** The Beefy roots seen on a run of the receiver. */
  function SeenOn(calls: seq<Receiver.Call>): set<H256> {
    Receiver.Run(Receiver.EMPTY, calls).seenBeefyRoots.Keys
  }

  /** The proof is accepted at the end of a run of the receiver, over an honest history. */
  predicate AcceptedOn(w: World, calls: seq<Receiver.Call>, x: XcmpProof, beefyRoot: H256) {
    Honest(w) && RootsFromRelay(w, calls) && Receiver.Accepts(SeenOn(calls), x, beefyRoot)
  }

  // ---------------------------------------------------------------- soundness

  lemma {:induction false} SeenRootsAreRelayRoots(w: World, calls: seq<Receiver.Call>, root: H256)
    requires RootsFromRelay(w, calls) && root in Receiver.Run(Receiver.EMPTY, calls).seenBeefyRoots
    ensures root == Zero || IsRelayRoot(w, root)
  {
    var n := |calls| - 1;
    if !Receiver.StartsWithRoot(calls[n], root) {
      SeenRootsAreRelayRoots(w, calls[..n], root);
    }
  }

  /** A leaf under a Beefy root of the relay chain is the leaf of one of its blocks. */
  lemma LeafUnderBeefyRootIsRelayLeaf(relay: seq<RelayBlock>, leaf: Blob) returns (i: nat)
    requires leaf in Frontier(BeefyRoot(relay))
    ensures i < |relay| && leaf == EncodeBeefyLeaf(relay[i].leaf)
  {
    var leaves := BeefyLeaves(relay);
    Mmr.MmrRootReadsBack(leaves);
    i :| 0 <= i < |leaves| && leaves[i] == leaf;
  }

  lemma SeenLeafIsRelayLeaf(w: World, root: H256, leaf: Blob) returns (i: nat, height: nat)
    requires (root == Zero || IsRelayRoot(w, root)) && leaf in Frontier(root)
    ensures i < height <= |w.relay| && root == BeefyRoot(w.relay[..height]) && leaf == EncodeBeefyLeaf(w.relay[i].leaf)
  {
    assert Frontier(Zero) == [];
    height :| 0 <= height <= |w.relay| && root == BeefyRoot(w.relay[..height]);
    i := LeafUnderBeefyRootIsRelayLeaf(w.relay[..height], leaf);
  }

  lemma RelayLeafNamesHeads(w: World, n: nat) returns (k: nat)
    requires LeavesNameHeads(w) && 0 < n <= |w.relay|
    ensures k < |w.relay| && w.relay[n - 1].leaf.leafExtra == HeadsRoot(w.relay[k].heads)
  {
    assert NamesHeads(w, n - 1);
    k :| 0 <= k < |w.relay| && w.relay[n - 1].leaf.leafExtra == HeadsRoot(w.relay[k].heads);
  }

  /** A Beefy leaf under a seen root is that of some relay block `n` up to the height of the root, and names
      the root of the para heads of some relay block `k`. */
  lemma BeefyLeafNamesHeads(w: World, root: H256, leaf: Blob) returns (k: nat, n: nat, height: nat)
    requires LeavesNameHeads(w) && (root == Zero || IsRelayRoot(w, root)) && leaf in Frontier(root)
    ensures k < |w.relay| && 0 < n <= height <= |w.relay| && root == BeefyRoot(w.relay[..height])
    ensures w.relay[n - 1].leaf.leafExtra == HeadsRoot(w.relay[k].heads)
    ensures DecodeBeefyLeaf(leaf).Some? && DecodeBeefyLeaf(leaf).value.leafExtra == HeadsRoot(w.relay[k].heads)
  {
    var i, h := SeenLeafIsRelayLeaf(w, root, leaf);
    n, height := i + 1, h;
    k := RelayLeafNamesHeads(w, n);
    BeefyLeafRoundTrip(w.relay[i].leaf);
  }

  lemma LeafUnderHeadsRootIsHead(heads: seq<ParaLeaf>, leaf: ParaLeaf) returns (i: nat)
    requires EncodeParaLeaf(leaf) in Frontier(HeadsRoot(heads))
    ensures i < |heads| && heads[i] == leaf
  {
    var encoded := EncodedHeads(heads);
    BinaryMerkle.RootReadsBack(encoded);
    i :| 0 <= i < |encoded| && encoded[i] == EncodeParaLeaf(leaf);
    EncodeParaLeafInjective(heads[i], leaf);
  }

  /** The channel root read from a sender head is the channel tree root after some sender block. */
  lemma SenderHeadNamesChannels(w: World, leaf: ParaLeaf) returns (j: nat)
    requires AllReady(w.blocks) && HeadersCarryRoots(w) && IsSenderHeader(w, leaf.headData)
    ensures 0 < j <= |w.blocks|
    ensures j <= |w.headers| && leaf.headData == EncodeHeader(w.headers[j - 1])
    ensures Receiver.ExtractXcmpChannelRoot(leaf) == Receiver.Extracted(DigestRoot(w, j))
  {
    var i :| 0 <= i < |w.headers| && leaf.headData == EncodeHeader(w.headers[i]);
    Receiver.ExtractionReadsHeader(leaf, w.headers[i]);
    j := i + 1;
  }

  predicate IsSentLeaf(blocks: seq<SenderBlock>, para: nat, leaf: Blob)
    requires forall i :: 0 <= i < |blocks| ==> HasGap(blocks[i].outbound, para)
  {
    exists i :: 0 <= i < |blocks| && leaf == EncodeMessageLeaf(LeafData(blocks[i], para))
  }

  lemma IsSentLeafIff(blocks: seq<SenderBlock>, para: nat, leaf: Blob)
    requires forall i :: 0 <= i < |blocks| ==> HasGap(blocks[i].outbound, para)
    ensures IsSentLeaf(blocks, para, leaf) <==> leaf in MessageLeaves(blocks, para)
  {
    var leaves := MessageLeaves(blocks, para);
    if IsSentLeaf(blocks, para, leaf) {
      var i :| 0 <= i < |blocks| && leaf == EncodeMessageLeaf(LeafData(blocks[i], para));
      assert leaves[i] == leaf;
    }
    if leaf in leaves {
      var i :| 0 <= i < |leaves| && leaves[i] == leaf;
      assert leaf == EncodeMessageLeaf(LeafData(blocks[i], para));
    }
  }

  /** A leaf under the channel root after `j` blocks is the message leaf of one of these blocks. */
  lemma LeafUnderChannelIsSent(blocks: seq<SenderBlock>, para: nat, leaf: Blob)
    requires forall i :: 0 <= i < |blocks| ==> HasGap(blocks[i].outbound, para)
    ensures leaf in Frontier(Mmr.MmrRoot(MessageLeaves(blocks, para))) <==> IsSentLeaf(blocks, para, leaf)
  {
    Mmr.MmrRootReadsBack(MessageLeaves(blocks, para));
    IsSentLeafIff(blocks, para, leaf);
  }

  /** What an accepted proof for the sender's para delivers: after some number of sender blocks,
      in one of the two channels, exactly the submitted leaves not shaped like an inner node are
      message leaves the sender produced in that channel up to then. */
  predicate DeliversSentMessages(w: World, x: XcmpProof, j: nat, para: nat)
    requires AllReady(w.blocks)
  {
    && 0 < j <= |w.blocks| && (para == PARA_A || para == PARA_B)
    && x.stage3.leaf == Mmr.MmrRoot(MessageLeaves(w.blocks[..j], para))
    && forall k :: 0 <= k < |x.stage4.1| ==>
         (IsSentLeaf(w.blocks[..j], para, x.stage4.1[k]) <==> !IsPair(x.stage4.1[k]))
  }

  /** Head `i` of relay block `k` is `head`, and the leaf of relay block `n`, under the Beefy root of height
      `height`, commits to the heads of block `k`. */
  predicate Commits(w: World, k: nat, i: nat, n: nat, height: nat, head: ParaLeaf) {
    && k < |w.relay| && i < |w.relay[k].heads| && w.relay[k].heads[i] == head
    && 0 < n <= height <= |w.relay| && w.relay[n - 1].leaf.leafExtra == HeadsRoot(w.relay[k].heads)
  }

  /** The head of an accepted proof, of whatever para, is a head that the relay chain has committed to up to
      the height of the targeted Beefy root. */
  lemma AcceptedHeadIsCommitted(w: World, calls: seq<Receiver.Call>, x: XcmpProof, beefyRoot: H256)
    returns (k: nat, i: nat, n: nat, height: nat)
    requires AcceptedOn(w, calls, x, beefyRoot)
    ensures Commits(w, k, i, n, height, x.stage2.leaf) && beefyRoot == BeefyRoot(w.relay[..height])
  {
    Receiver.AcceptedIsBacked(SeenOn(calls), x, beefyRoot);
    SeenRootsAreRelayRoots(w, calls, beefyRoot);
    k, n, height := BeefyLeafNamesHeads(w, beefyRoot, x.stage1.1[0]);
    i := LeafUnderHeadsRootIsHead(w.relay[k].heads, x.stage2.leaf);
  }

  /** If a committed head belongs to the sender, it is the header of some sender block, and the proof names
      the channel tree root after that block. */
  lemma AcceptedHeadIsSenderHead(w: World, calls: seq<Receiver.Call>, x: XcmpProof, beefyRoot: H256)
    returns (k: nat, i: nat, n: nat, height: nat, j: nat)
    requires AcceptedOn(w, calls, x, beefyRoot)
    ensures Commits(w, k, i, n, height, x.stage2.leaf) && beefyRoot == BeefyRoot(w.relay[..height])
    ensures x.stage2.leaf.paraId == SENDER_PARA ==>
              && 0 < j <= |w.blocks| == |w.headers| && x.stage2.leaf.headData == EncodeHeader(w.headers[j - 1])
              && x.stage3.root == DigestRoot(w, j)
  {
    k, i, n, height := AcceptedHeadIsCommitted(w, calls, x, beefyRoot);
    j := 0;
    if x.stage2.leaf.paraId == SENDER_PARA {
      assert HeadsAreHeaders(w, w.relay[k].heads);
      j := SenderHeadNamesChannels(w, x.stage2.leaf);
    }
  }

  /** Verified leaves under a channel of the sender are message leaves of that channel. */
  lemma VerifiedChannelDelivers(w: World, x: XcmpProof, j: nat) returns (para: nat)
    requires AllReady(w.blocks) && 0 < j <= |w.blocks|
    requires x.stage3.root == DigestRoot(w, j) && ChannelProofVerifies(x.stage3)
    requires forall k :: 0 <= k < |x.stage4.1| ==>
               (x.stage4.1[k] in Frontier(x.stage3.leaf) <==> !IsPair(x.stage4.1[k]))
    ensures DeliversSentMessages(w, x, j, para)
  {
    var blocks := w.blocks[..j];
    LeavesAreMessageLeaves(blocks);
    VerifiedChannelIsMember(ChannelRoots(Produce(blocks)), x.stage3);
    para := if x.stage3.leaf == Mmr.MmrRoot(MessageLeaves(blocks, PARA_A)) then PARA_A else PARA_B;
    forall k | 0 <= k < |x.stage4.1|
      ensures IsSentLeaf(blocks, para, x.stage4.1[k]) <==> !IsPair(x.stage4.1[k])
    {
      LeafUnderChannelIsSent(blocks, para, x.stage4.1[k]);
    }
  }

  ghost predicate Delivers(w: World, x: XcmpProof)
    requires AllReady(w.blocks)
  {
    exists j, para :: DeliversSentMessages(w, x, j, para)
  }

  /** End-to-end soundness: on any history of the three chains and any run of the receiver, the head of an
      accepted proof is one that the relay chain has committed to, and if it is a head of the sender, the
      proof delivers what the sender sent. */
  lemma AcceptedProofsDeliverSentMessages(w: World, calls: seq<Receiver.Call>, x: XcmpProof, beefyRoot: H256)
    requires AcceptedOn(w, calls, x, beefyRoot)
    ensures exists k: nat, i: nat, n: nat, height: nat ::
              Commits(w, k, i, n, height, x.stage2.leaf) && beefyRoot == BeefyRoot(w.relay[..height])
    ensures x.stage2.leaf.paraId == SENDER_PARA ==> Delivers(w, x)
  {
    var k, i, n, height, j := AcceptedHeadIsSenderHead(w, calls, x, beefyRoot);
    if x.stage2.leaf.paraId == SENDER_PARA {
      Receiver.AcceptedIsBacked(SeenOn(calls), x, beefyRoot);
      var para := VerifiedChannelDelivers(w, x, j);
    }
  }

  /** The receiver accepts these stage-4 leaves in place of those of `x`, and one of them was not sent. */
  predicate AcceptsUnsentLeaf(
    seen: set<H256>, x: XcmpProof, beefyRoot: H256, stage4: (Mmr.MmrProof, seq<Blob>), blocks: seq<SenderBlock>, para: nat)
    requires forall i :: 0 <= i < |blocks| ==> HasGap(blocks[i].outbound, para)
  {
    && Receiver.Accepts(seen, x.(stage4 := stage4), beefyRoot)
    && exists k :: 0 <= k < |stage4.1| && !IsSentLeaf(blocks, para, stage4.1[k])
  }

  lemma UnsentLeafIsNonLeaf(
    seen: set<H256>, x: XcmpProof, beefyRoot: H256, stage4: (Mmr.MmrProof, seq<Blob>), blocks: seq<SenderBlock>, para: nat)
    requires forall i :: 0 <= i < |blocks| ==> HasGap(blocks[i].outbound, para)
    requires Receiver.PassesStage3(seen, x, beefyRoot) && x.stage3.leaf == Mmr.MmrRoot(MessageLeaves(blocks, para))
    ensures AcceptsUnsentLeaf(seen, x, beefyRoot, stage4, blocks, para)
            <==> Mmr.VerifiesNonLeaf(MessageLeaves(blocks, para), stage4.1, stage4.0)
  {
    forall k | 0 <= k < |stage4.1|
      ensures IsSentLeaf(blocks, para, stage4.1[k]) <==> stage4.1[k] in MessageLeaves(blocks, para)
    {
      IsSentLeafIff(blocks, para, stage4.1[k]);
    }
  }

  /** Under a channel of two or more leaves, the content of its root node is accepted as a leaf. */
  lemma RootContentIsAccepted(seen: set<H256>, x: XcmpProof, beefyRoot: H256, blocks: seq<SenderBlock>, para: nat)
    requires |blocks| >= 2 && forall i :: 0 <= i < |blocks| ==> HasGap(blocks[i].outbound, para)
    requires Receiver.PassesStage3(seen, x, beefyRoot) && x.stage3.leaf == Mmr.MmrRoot(MessageLeaves(blocks, para))
    ensures x.stage3.leaf.Keccak?
    ensures AcceptsUnsentLeaf(seen, x, beefyRoot, (Mmr.MmrProof([0], 1, []), [x.stage3.leaf.preimage]), blocks, para)
  {
    var leaves := MessageLeaves(blocks, para);
    Mmr.InnerNodeContentVerifies(leaves);
    assert [x.stage3.leaf.preimage][0] !in leaves;
    UnsentLeafIsNonLeaf(seen, x, beefyRoot, (Mmr.MmrProof([0], 1, []), [x.stage3.leaf.preimage]), blocks, para);
  }

  /** The exact limit of soundness: whatever passes the first three stages for a channel of the sender
      after some blocks is accepted with some leaf that was never sent, for a suitable stage 4, if and
      only if the channel holds at least two leaves. */
  lemma UnsentLeafAcceptedIff(seen: set<H256>, x: XcmpProof, beefyRoot: H256, blocks: seq<SenderBlock>, para: nat)
    requires forall i :: 0 <= i < |blocks| ==> HasGap(blocks[i].outbound, para)
    requires Receiver.PassesStage3(seen, x, beefyRoot) && x.stage3.leaf == Mmr.MmrRoot(MessageLeaves(blocks, para))
    ensures (exists stage4 :: AcceptsUnsentLeaf(seen, x, beefyRoot, stage4, blocks, para)) <==> |blocks| >= 2
  {
    if |blocks| >= 2 {
      RootContentIsAccepted(seen, x, beefyRoot, blocks, para);
    } else {
      Mmr.NonLeafVerifiesIff(MessageLeaves(blocks, para));
      forall stage4
        ensures !AcceptsUnsentLeaf(seen, x, beefyRoot, stage4, blocks, para)
      {
        UnsentLeafIsNonLeaf(seen, x, beefyRoot, stage4, blocks, para);
      }
    }
  }

  /** Whatever passes the first three stages is also accepted with no leaf at all. */
  lemma EmptyDeliveryIsAccepted(seen: set<H256>, x: XcmpProof, beefyRoot: H256)
    requires Receiver.PassesStage3(seen, x, beefyRoot)
    ensures Receiver.Accepts(seen, x.(stage4 := (Mmr.MmrProof([], 1, [x.stage3.leaf]), [])), beefyRoot)
  {
    Mmr.EmptyClaimVerifies(x.stage3.leaf);
  }

  /** What limits soundness after some sender block `j` in one channel: all submitted leaves were sent if
      and only if none is shaped like an inner node, and the same three stages are accepted with some leaf
      that was never sent if and only if the channel holds at least two leaves. */
  ghost predicate LimitedAt(w: World, seen: set<H256>, x: XcmpProof, beefyRoot: H256, j: nat, para: nat)
    requires AllReady(w.blocks)
  {
    && DeliversSentMessages(w, x, j, para)
    && ((forall k :: 0 <= k < |x.stage4.1| ==> IsSentLeaf(w.blocks[..j], para, x.stage4.1[k])) <==> NoPairs(x.stage4.1))
    && ((exists stage4 :: AcceptsUnsentLeaf(seen, x, beefyRoot, stage4, w.blocks[..j], para)) <==> j >= 2)
  }

  lemma LimitsHold(w: World, seen: set<H256>, x: XcmpProof, beefyRoot: H256, j: nat, para: nat)
    requires AllReady(w.blocks) && DeliversSentMessages(w, x, j, para) && Receiver.PassesStage3(seen, x, beefyRoot)
    ensures LimitedAt(w, seen, x, beefyRoot, j, para)
  {
    UnsentLeafAcceptedIff(seen, x, beefyRoot, w.blocks[..j], para);
  }

  /** Soundness and its limits together: any accepted proof is also accepted without leaves, and one whose
      head belongs to the sender is limited as above in one of the sender's channels. */
  lemma SoundnessIsLimited(w: World, calls: seq<Receiver.Call>, x: XcmpProof, beefyRoot: H256)
    requires AcceptedOn(w, calls, x, beefyRoot)
    ensures Receiver.Accepts(SeenOn(calls), x.(stage4 := (Mmr.MmrProof([], 1, [x.stage3.leaf]), [])), beefyRoot)
    ensures x.stage2.leaf.paraId == SENDER_PARA ==>
              exists j, para :: LimitedAt(w, SeenOn(calls), x, beefyRoot, j, para)
  {
    EmptyDeliveryIsAccepted(SeenOn(calls), x, beefyRoot);
    if x.stage2.leaf.paraId == SENDER_PARA {
      AcceptedProofsDeliverSentMessages(w, calls, x, beefyRoot);
      var j, para :| DeliversSentMessages(w, x, j, para);
      LimitsHold(w, SeenOn(calls), x, beefyRoot, j, para);
    }
  }

  // ---------------------------------------------------------------- what the nodes serve

  function Bytes(p: (seq<Blob>, Mmr.MmrProof)): LeavesProof {
    Pack((p.1, p.0))
  }

  /** The root of the channel that the relayer follows, after `j` blocks. */
  function RelayedRoot(w: World, j: nat): H256
    requires AllReady(w.blocks) && j <= |w.blocks|
  {
    Mmr.MmrRoot(MessageLeaves(w.blocks[..j], PARA_A))
  }

  /** The message leaf of block `j` in that channel. */
  function RelayedLeaf(w: World, j: nat): Blob
    requires AllReady(w.blocks) && 0 < j <= |w.blocks|
  {
    EncodeMessageLeaf(LeafData(w.blocks[j - 1], PARA_A))
  }

  /** The relay node's answers for block `n`: the proof of the Beefy MMR at that block, and the root at
      the best block of the moment, which may be of any height `m`. */
  predicate RelayServes(w: World, n: nat, m: nat, root: H256, proof: LeavesProof) {
    && 0 < n <= |w.relay| && m <= |w.relay|
    && root == BeefyRoot(w.relay[..m])
    && proof == Bytes(Mmr.GenerateProof(BeefyLeaves(w.relay[..n]), [n - 1]))
  }

  /** The head proof served for the sender's para. */
  predicate RelayServesHead(w: World, n: nat, i: nat, head: ParaMerkleProof) {
    && n < |w.relay| && i < |w.relay[n].heads| <= Receiver.USIZE_MAX
    && w.relay[n].heads[i].paraId == SENDER_PARA
    && head == HeadsProof(w.relay[n].heads, i)
  }

  /** The sender node's answers for block `j`. */
  predicate SenderServes(w: World, j: nat, root: H256, proof: LeavesProof)
    requires AllReady(w.blocks)
  {
    && j <= |w.blocks|
    && var s := Produce(w.blocks[..j]);
    && MmrRootApi(s, 0) == Served(root)
    && GenerateProofApi(s, [j], None, 0).Served?
    && proof == Bytes(GenerateProofApi(s, [j], None, 0).value)
  }

  predicate SenderServesChannel(w: World, j: nat, root: H256, channel: ChannelMerkleProof)
    requires AllReady(w.blocks)
  {
    && j <= |w.blocks|
    && var s := Produce(w.blocks[..j]);
    MmrRootApi(s, 0) == Served(root) && GenMerkleProof(s, 0) == Some(channel)
  }

  /** Every answer is what an honest node serves for some block, and the channel proof is requested at
      the block whose message root was just read. */
  ghost function WorldAnswers(w: World): AnswerSpec
    requires AllReady(w.blocks)
  {
    AnswerSpec(
      (r, p) => exists j: nat :: SenderServes(w, j, r, p),
      (r, c) => exists j: nat :: SenderServesChannel(w, j, r, c),
      h => exists n: nat, i: nat :: RelayServesHead(w, n, i, h),
      (n: nat, r, p) => exists m: nat :: RelayServes(w, n, m, r, p))
  }

  ghost predicate ServedBy(w: World, s: State, step: Step)
    requires AllReady(w.blocks)
  {
    Meets(WorldAnswers(w), s, step)
  }

  /** A Beefy proof generated at height `n` verifies under the root of height `m` if and only if the
      heights are the same. */
  lemma BeefyProofVerifiesIffSameHeight(w: World, n: nat, m: nat, root: H256, proof: LeavesProof)
    requires RelayServes(w, n, m, root, proof)
    ensures GoodBeefy(root, proof) <==> m == n
  {
    Mmr.ProofsVerify(BeefyLeaves(w.relay[..n]), [n - 1]);
    if BeefyRoot(w.relay[..m]) == BeefyRoot(w.relay[..n]) {
      Mmr.MmrRootInjective(BeefyLeaves(w.relay[..m]), BeefyLeaves(w.relay[..n]));
      assert |w.relay[..m]| == |w.relay[..n]|;
    }
  }

  /** The comparison of the header number with the loop block, which the collector only logs, decides
      whether the entry it files can ever be used, when the root and the header are of one block. */
  lemma LoggedMismatchDecides(w: World, a: RelayAnswer, m: nat)
    requires a.root.Some? && a.proof.Some? && RelayServes(w, a.number, m, a.root.value, a.proof.value)
    requires a.header == Some(m)
    ensures GoodBeefy(a.root.value, a.proof.value) <==> a.header == Some(a.number)
  {
    BeefyProofVerifiesIffSameHeight(w, a.number, m, a.root.value, a.proof.value);
  }

  lemma HeadAnswerIsGood(w: World, n: nat, i: nat, head: ParaMerkleProof)
    requires RelayServesHead(w, n, i, head)
    ensures GoodHead(head) && head.leaf.paraId == SENDER_PARA
  {
    BinaryMerkle.ProofsVerify(EncodedHeads(w.relay[n].heads), i);
  }

  /** The proof served for the latest block is a proof of exactly the last leaf. */
  lemma LastLeafProof(leaves: seq<Blob>, n: nat)
    requires n == |leaves|
    ensures var r := GenerateFrom(leaves, [n], None);
            && (r.Served? <==> n > 0)
            && (r.Served? ==>
                  r.value.0 == [leaves[n - 1]] && Mmr.VerifyLeavesProof(Mmr.MmrRoot(leaves), r.value.0, r.value.1))
  {
    GeneratedFromVerifies(leaves, [n], None);
    assert leaves[..n] == leaves;
    assert n > 0 ==> BlocksInRange([n], n);
  }

  /** The sender's answers at its latest block. */
  lemma LatestBlockProof(blocks: seq<SenderBlock>, n: nat)
    requires AllReady(blocks) && n == |blocks|
    ensures MmrRootApi(Produce(blocks), 0) == Served(Mmr.MmrRoot(MessageLeaves(blocks, PARA_A)))
    ensures var leaves := MessageLeaves(blocks, PARA_A);
            var r := GenerateProofApi(Produce(blocks), [n], None, 0);
            && (r.Served? <==> n > 0)
            && (r.Served? ==>
                  r.value.0 == [leaves[n - 1]] && Mmr.VerifyLeavesProof(Mmr.MmrRoot(leaves), r.value.0, r.value.1))
  {
    ApiReadsChannel(blocks, [n], None, 0);
    LastLeafProof(MessageLeaves(blocks, PARA_A), n);
  }

  /** What the sender serves for block `j` is a proof of exactly the message leaf of that block. */
  lemma MessageAnswerIsGood(w: World, j: nat, root: H256, proof: LeavesProof)
    requires AllReady(w.blocks) && SenderServes(w, j, root, proof)
    ensures GoodMessage(root, proof) && Decodes(proof) && j > 0
    ensures root == RelayedRoot(w, j) && proof.leaves.value == [RelayedLeaf(w, j)]
  {
    var blocks := w.blocks[..j];
    assert |blocks| == j && (j > 0 ==> blocks[j - 1] == w.blocks[j - 1]);
    LatestBlockProof(blocks, j);
  }

  lemma ChannelAnswerIsGood(w: World, j: nat, root: H256, channel: ChannelMerkleProof)
    requires AllReady(w.blocks) && SenderServesChannel(w, j, root, channel)
    ensures GoodChannel(root, channel) && root == RelayedRoot(w, j)
    ensures channel.root == DigestRoot(w, j)
  {
    LeavesAreMessageLeaves(w.blocks[..j]);
    ChannelTreeAgreement(ChannelRoots(Produce(w.blocks[..j])), 0);
  }

  /** Answers of honest nodes are consistent, except that a Beefy answer is consistent if and only if
      its root is that of the block whose proof was requested. */
  lemma ServedAnswersAreConsistent(w: World, s: State, step: Step)
    requires AllReady(w.blocks) && ServedBy(w, s, step)
    ensures Meets(LowerStages(), s, step)
    ensures Consistent(s, step) <==>
            (step.RelayBeefy? && step.answer.root.Some? && step.answer.proof.Some? ==>
               0 < step.answer.number <= |w.relay|
               && step.answer.root.value == BeefyRoot(w.relay[..step.answer.number]))
  {
    match step
    case RelayBeefy(_, a) =>
      if a.root.Some? && a.proof.Some? {
        var m: nat :| RelayServes(w, a.number, m, a.root.value, a.proof.value);
        BeefyProofVerifiesIffSameHeight(w, a.number, m, a.root.value, a.proof.value);
        BeefyRootsNeverRepeat(w, m, a.number);
      }
    case RelayHead(_, h) =>
      if h.Some? {
        var n: nat, i: nat :| RelayServesHead(w, n, i, h.value);
        HeadAnswerIsGood(w, n, i, h.value);
      }
    case ParaMessage(_, r, p) =>
      if r.Some? && p.Some? {
        var j: nat :| SenderServes(w, j, r.value, p.value);
        MessageAnswerIsGood(w, j, r.value, p.value);
      }
    case ParaChannel(_, c) =>
      if c.Some? && s.para.AwaitChannelProof? {
        var j: nat :| SenderServesChannel(w, j, s.para.msgRoot, c.value);
        ChannelAnswerIsGood(w, j, s.para.msgRoot, c.value);
      }
    case _ =>
  }

  lemma BeefyRootsNeverRepeat(w: World, m: nat, n: nat)
    requires m <= |w.relay| && n <= |w.relay|
    ensures BeefyRoot(w.relay[..m]) == BeefyRoot(w.relay[..n]) <==> m == n
  {
    if BeefyRoot(w.relay[..m]) == BeefyRoot(w.relay[..n]) {
      Mmr.MmrRootInjective(BeefyLeaves(w.relay[..m]), BeefyLeaves(w.relay[..n]));
      assert |w.relay[..m]| == |w.relay[..n]|;
    }
  }

  // ---------------------------------------------------------------- completeness

  /** What a submission of the relayer holds: the message leaf of one block `j` and nothing else, under
      the channel root and the channel tree root after that block, for the sender's para; and a Beefy
      proof of relay block `sub.block` under the Beefy root of height `m`. */
  predicate CarriesBlock(w: World, sub: Submission, j: nat, m: nat)
    requires AllReady(w.blocks)
  {
    && 0 < j <= |w.blocks| && m <= |w.relay|
    && sub.xcmp.stage4.1 == [RelayedLeaf(w, j)]
    && sub.xcmp.stage3.leaf == sub.root == RelayedRoot(w, j)
    && sub.xcmp.stage3.root == DigestRoot(w, j)
    && sub.xcmp.stage2.leaf.paraId == 1000
    && sub.beefyRoot == BeefyRoot(w.relay[..m])
  }

  lemma ChannelRootsPinHeight(w: World, j: nat, j': nat)
    requires AllReady(w.blocks) && j <= |w.blocks| && j' <= |w.blocks|
    requires RelayedRoot(w, j) == RelayedRoot(w, j')
    ensures j == j'
  {
    ChannelRootPinsHistory(w.blocks[..j], w.blocks[..j'], PARA_A);
    assert |w.blocks[..j]| == j && |w.blocks[..j']| == j';
  }

  /** The message and the channel proof of a submission are those of one sender block. */
  lemma ServedMessage(w: World, sub: Submission) returns (j: nat)
    requires AllReady(w.blocks) && BuiltFrom(WorldAnswers(w), sub)
    ensures 0 < j <= |w.blocks| && sub.root == RelayedRoot(w, j)
    ensures sub.xcmp.stage4.1 == [RelayedLeaf(w, j)]
    ensures sub.xcmp.stage3.root == DigestRoot(w, j)
    ensures GoodMessage(sub.root, Pack(sub.xcmp.stage4)) && GoodChannel(sub.root, sub.xcmp.stage3)
  {
    j :| SenderServes(w, j, sub.root, Pack(sub.xcmp.stage4));
    MessageAnswerIsGood(w, j, sub.root, Pack(sub.xcmp.stage4));
    var j': nat :| SenderServesChannel(w, j', sub.root, sub.xcmp.stage3);
    ChannelAnswerIsGood(w, j', sub.root, sub.xcmp.stage3);
    ChannelRootsPinHeight(w, j, j');
  }

  /** The Beefy root of a submission is of some height, and the Beefy proof verifies under it exactly
      when the proof was generated at that height. */
  lemma ServedBeefy(w: World, sub: Submission) returns (m: nat)
    requires AllReady(w.blocks) && BuiltFrom(WorldAnswers(w), sub)
    ensures m <= |w.relay| && sub.beefyRoot == BeefyRoot(w.relay[..m])
    ensures GoodBeefy(sub.beefyRoot, Pack(sub.xcmp.stage1)) <==> m == sub.block
  {
    m :| RelayServes(w, sub.block, m, sub.beefyRoot, Pack(sub.xcmp.stage1));
    BeefyProofVerifiesIffSameHeight(w, sub.block, m, sub.beefyRoot, Pack(sub.xcmp.stage1));
  }

  lemma ServedHead(w: World, sub: Submission)
    requires AllReady(w.blocks) && BuiltFrom(WorldAnswers(w), sub)
    ensures GoodHead(sub.xcmp.stage2) && sub.xcmp.stage2.leaf.paraId == SENDER_PARA
  {
    var n: nat, i: nat :| RelayServesHead(w, n, i, sub.xcmp.stage2);
    HeadAnswerIsGood(w, n, i, sub.xcmp.stage2);
  }

  /** A submission assembled from what honest nodes serve carries one block, its lower stages are in
      order, and its Beefy proof verifies if and only if the heights agree. */
  lemma ServedSubmission(w: World, sub: Submission) returns (j: nat, m: nat)
    requires AllReady(w.blocks) && BuiltFrom(WorldAnswers(w), sub)
    ensures CarriesBlock(w, sub, j, m) && BuiltFrom(LowerStages(), sub)
    ensures GoodBeefy(sub.beefyRoot, Pack(sub.xcmp.stage1)) <==> m == sub.block
  {
    j := ServedMessage(w, sub);
    m := ServedBeefy(w, sub);
    ServedHead(w, sub);
  }

  lemma CarriedBlockIsDelivered(w: World, sub: Submission, j: nat, m: nat)
    requires AllReady(w.blocks) && CarriesBlock(w, sub, j, m)
    ensures DeliversSentMessages(w, sub.xcmp, j, PARA_A) && NoPairs(sub.xcmp.stage4.1)
  {
    var leaves := MessageLeaves(w.blocks[..j], PARA_A);
    assert sub.xcmp.stage4.1[0] == leaves[j - 1];
    IsSentLeafIff(w.blocks[..j], PARA_A, leaves[j - 1]);
  }

  /** End to end: in every interleaving of the relayer over honest nodes, every submission carries
      exactly the message leaf of one sender block, all of it sent by the sender, and is accepted by a
      chain if and only if the chain has seen its Beefy root and that root is of the height at which the
      Beefy proof was generated. */
  lemma SubmissionsAreAcceptedAndDeliver(
    w: World, lt: (H256, H256) -> bool, states: seq<State>, steps: seq<Step>, i: nat, k: nat, seen: set<H256>)
    returns (j: nat, m: nat)
    requires AllReady(w.blocks) && ValidRun(lt, states, steps) && i < |states| && k < |states[i].submitted|
    requires forall n :: 0 <= n < |steps| ==> ServedBy(w, states[n], steps[n])
    ensures var sub := states[i].submitted[k];
            && CarriesBlock(w, sub, j, m) && DeliversSentMessages(w, sub.xcmp, j, PARA_A) && NoPairs(sub.xcmp.stage4.1)
            && (Receiver.Accepts(seen, sub.xcmp, sub.beefyRoot) <==> sub.beefyRoot in seen && m == sub.block)
  {
    var sub := states[i].submitted[k];
    AnswersAreUpheld(lt, WorldAnswers(w), states, steps, i);
    assert BuiltFrom(WorldAnswers(w), sub);
    j, m := ServedSubmission(w, sub);
    CarriedBlockIsDelivered(w, sub, j, m);
    SubmissionsJoined(lt, states, steps, i);
    AcceptedIffBeefyVerifies(sub, seen);
  }

  // ---------------------------------------------------------------- at most once

  /** The step collects the message proof of sender block `j`. */
  predicate CollectsBlock(w: World, step: Step, j: nat)
    requires AllReady(w.blocks)
  {
    step.ParaMessage? && step.msgRoot.Some? && step.msgProof.Some?
    && SenderServes(w, j, step.msgRoot.value, step.msgProof.value)
  }

  ghost predicate CollectsBlocksOnce(w: World, steps: seq<Step>)
    requires AllReady(w.blocks)
  {
    forall p, q, j: nat :: 0 <= p < q < |steps| && CollectsBlock(w, steps[p], j) ==> !CollectsBlock(w, steps[q], j)
  }

  /** Steps that collect the same root collect the same block. */
  lemma SameRootSameBlock(w: World, p: Step, q: Step, r: H256) returns (j: nat)
    requires AllReady(w.blocks) && Collects(p, r) && Collects(q, r)
    requires WorldAnswers(w).message(r, p.msgProof.value) && WorldAnswers(w).message(r, q.msgProof.value)
    ensures CollectsBlock(w, p, j) && CollectsBlock(w, q, j)
  {
    j :| SenderServes(w, j, r, p.msgProof.value);
    var j': nat :| SenderServes(w, j', r, q.msgProof.value);
    MessageAnswerIsGood(w, j, r, p.msgProof.value);
    MessageAnswerIsGood(w, j', r, q.msgProof.value);
    ChannelRootsPinHeight(w, j, j');
  }

  lemma {:induction false} CollectedAtMostOnce(w: World, states: seq<State>, steps: seq<Step>, i: nat, r: H256)
    requires AllReady(w.blocks) && i <= |steps| <= |states| && CollectsBlocksOnce(w, steps)
    requires forall n :: 0 <= n < |steps| ==> ServedBy(w, states[n], steps[n])
    ensures Collections(steps[..i], r) <= 1
    ensures Collections(steps[..i], r) == 1 ==> exists p :: 0 <= p < i && Collects(steps[p], r)
  {
    if i > 0 {
      CollectedAtMostOnce(w, states, steps, i - 1, r);
      assert steps[..i][..i - 1] == steps[..i - 1];
      if Collects(steps[i - 1], r) && Collections(steps[..i - 1], r) == 1 {
        var p :| 0 <= p < i - 1 && Collects(steps[p], r);
        assert ServedBy(w, states[p], steps[p]) && ServedBy(w, states[i - 1], steps[i - 1]);
        var j := SameRootSameBlock(w, steps[p], steps[i - 1], r);
        assert false;
      }
    }
  }

  /** At-most-once delivery: in every interleaving over honest nodes that collects each sender block at most
      once, no message root is submitted twice. */
  lemma SubmittedAtMostOnce(
    w: World, lt: (H256, H256) -> bool, states: seq<State>, steps: seq<Step>, i: nat, r: H256)
    requires AllReady(w.blocks) && ValidRun(lt, states, steps) && i < |states| && CollectsBlocksOnce(w, steps)
    requires forall n :: 0 <= n < |steps| ==> ServedBy(w, states[n], steps[n])
    ensures SubmissionsFor(states[i].submitted, r) <= 1
  {
    SubmittedAtMostAsCollected(lt, states, steps, i, r);
    CollectedAtMostOnce(w, states, steps, i, r);
  }

  // ---------------------------------------------------------------- every block can be delivered

  /** The sender's header of block `j` is head `i` of relay block `k`, and the Beefy leaf of relay
      block `n` commits to the heads of block `k`. */
  predicate Included(w: World, j: nat, k: nat, i: nat, n: nat) {
    && 0 < j <= |w.blocks| == |w.headers| && k < |w.relay| && 0 < n <= |w.relay|
    && i < |w.relay[k].heads| <= Receiver.USIZE_MAX
    && w.relay[k].heads[i] == ParaLeaf(SENDER_PARA, EncodeHeader(w.headers[j - 1]))
    && w.relay[n - 1].leaf.leafExtra == HeadsRoot(w.relay[k].heads)
  }

  /** The sender has answers for block `j`. */
  lemma MessageAnswer(w: World, j: nat) returns (root: H256, msg: LeavesProof)
    requires AllReady(w.blocks) && 0 < j <= |w.blocks|
    ensures SenderServes(w, j, root, msg) && Decodes(msg)
  {
    var blocks := w.blocks[..j];
    LatestBlockProof(blocks, j);
    root, msg := RelayedRoot(w, j), Bytes(GenerateProofApi(Produce(blocks), [j], None, 0).value);
  }

  lemma ChannelTreeRootIsNotZero(roots: seq<H256>)
    requires roots != []
    ensures ChannelTreeRoot(roots) != Zero
  {
    BinaryMerkle.RootReadsBack(EncodedRoots(roots));
  }

  /** The channel proof for block `j` has the message root as leaf and the digest root as root. */
  lemma ChannelAnswer(w: World, j: nat, root: H256, msg: LeavesProof) returns (c: ChannelMerkleProof)
    requires AllReady(w.blocks) && SenderServes(w, j, root, msg)
    ensures SenderServesChannel(w, j, root, c) && c.leaf == root
    ensures c.root == DigestRoot(w, j) != Zero
  {
    var roots := ChannelRoots(Produce(w.blocks[..j]));
    ChannelTreeAgreement(roots, 0);
    ChannelTreeRootIsNotZero(roots);
    c := ChannelTreeProof(roots, 0);
  }

  /** The Beefy proof for relay block `n` holds the leaf of that block; root and header are of height `m`. */
  lemma BeefyAnswer(w: World, n: nat, m: nat) returns (a: RelayAnswer)
    requires 0 < n <= |w.relay| && m <= |w.relay|
    ensures a.number == n && a.header == Some(m) && a.root == Some(BeefyRoot(w.relay[..m])) && a.proof.Some?
    ensures RelayServes(w, n, m, a.root.value, a.proof.value) && Decodes(a.proof.value)
    ensures LeafExtraOf(a.proof.value) == Some(w.relay[n - 1].leaf.leafExtra)
  {
    var p := Mmr.GenerateProof(BeefyLeaves(w.relay[..n]), [n - 1]);
    assert p.0[0] == EncodeBeefyLeaf(w.relay[n - 1].leaf);
    BeefyLeafRoundTrip(w.relay[n - 1].leaf);
    a := RelayAnswer(n, Some(BeefyRoot(w.relay[..m])), Some(m), Some(Bytes(p)));
  }

  lemma SenderHeadKey(h: Header, root: H256, head: ParaMerkleProof)
    requires head.leaf.headData == EncodeHeader(h) && ExtractChannelRoot(h.digest) == Some(root) && root != Zero
    ensures HeadKey(Some(head)) == Some(root)
  {
    Receiver.ExtractionReadsHeader(head.leaf, h);
  }

  /** The head proof for the sender is filed under the digest root of block `j`. */
  lemma HeadAnswer(w: World, j: nat, k: nat, i: nat, n: nat, root: H256) returns (h: ParaMerkleProof)
    requires AllReady(w.blocks) && HeadersCarryRoots(w) && Included(w, j, k, i, n)
    requires root == DigestRoot(w, j) != Zero
    ensures RelayServesHead(w, k, i, h) && HeadKey(Some(h)) == Some(root)
    ensures h.root == w.relay[n - 1].leaf.leafExtra
  {
    h := HeadsProof(w.relay[k].heads, i);
    SenderHeadKey(w.headers[j - 1], root, h);
  }

  lemma DeliveryStepAt(root: H256, msg: LeavesProof, c: ChannelMerkleProof, a: RelayAnswer, h: ParaMerkleProof, p: nat)
    requires AnswersJoin(root, msg, c, a, h) && p < |DeliverySteps(root, msg, c, a, h)|
    ensures p < 4 ==> DeliverySteps(root, msg, c, a, h)[p] == ParaSteps(root, msg, c)[p]
    ensures 4 <= p < 6 ==> DeliverySteps(root, msg, c, a, h)[p] == RelaySteps(a, h)[p - 4]
    ensures p >= 6 ==> IsAsmStep(DeliverySteps(root, msg, c, a, h)[p])
  {
  }

  /** If the collected answers have a property, so do all answers of the delivery run. */
  lemma DeliveryMeets(
    q: AnswerSpec, s: State, root: H256, msg: LeavesProof, c: ChannelMerkleProof, a: RelayAnswer, h: ParaMerkleProof, p: nat)
    requires AnswersJoin(root, msg, c, a, h) && p < |DeliverySteps(root, msg, c, a, h)|
    requires q.message(root, msg) && q.channel(root, c) && q.head(h) && q.beefy(a.number, a.root.value, a.proof.value)
    requires p == 1 ==> s.para == AwaitChannelProof(root)
    ensures Meets(q, s, DeliverySteps(root, msg, c, a, h)[p])
  {
    DeliveryStepAt(root, msg, c, a, h, p);
  }

  /** Progress: for every sender block whose header the relay chain has committed to, and every height
      `m` at which the relay root may be read, there is a run of the relayer over honest nodes whose
      only submission carries that block. A chain that has seen its Beefy root accepts it if and only
      if the root was read at the height of the proof. */
  lemma EveryBlockCanBeDelivered(w: World, lt: (H256, H256) -> bool, j: nat, k: nat, i: nat, n: nat, m: nat)
    returns (states: seq<State>, steps: seq<Step>, sub: Submission)
    requires AllReady(w.blocks) && HeadersCarryRoots(w) && Included(w, j, k, i, n) && m <= |w.relay|
    ensures ValidRun(lt, states, steps) && forall p :: 0 <= p < |steps| ==> ServedBy(w, states[p], steps[p])
    ensures states[|steps|].submitted == [sub] && sub.root !in states[|steps|].maps.messages
    ensures sub.block == n && CarriesBlock(w, sub, j, m)
    ensures forall seen :: Receiver.Accepts(seen, sub.xcmp, sub.beefyRoot) <==> sub.beefyRoot in seen && m == n
  {
    var root, msg := MessageAnswer(w, j);
    var c := ChannelAnswer(w, j, root, msg);
    var a := BeefyAnswer(w, n, m);
    var h := HeadAnswer(w, j, k, i, n, c.root);
    states := DeliveryRun(lt, root, msg, c, a, h);
    steps := DeliverySteps(root, msg, c, a, h);
    sub := JoinOf(root, msg, c, a, h);
    forall p | 0 <= p < |steps|
      ensures ServedBy(w, states[p], steps[p])
    {
      DeliveryMeets(WorldAnswers(w), states[p], root, msg, c, a, h, p);
    }
    MessageAnswerIsGood(w, j, root, msg);
    forall seen
      ensures Receiver.Accepts(seen, sub.xcmp, sub.beefyRoot) <==> sub.beefyRoot in seen && m == n
      ensures CarriesBlock(w, sub, j, m)
    {
      var j', m' := SubmissionsAreAcceptedAndDeliver(w, lt, states, steps, |steps|, 0, seen);
      CarriedBlockIsUnique(w, sub, j, m, j', m');
    }
  }

  lemma CarriedBlockIsUnique(w: World, sub: Submission, j: nat, m: nat, j': nat, m': nat)
    requires AllReady(w.blocks) && 0 < j <= |w.blocks| && m <= |w.relay|
    requires sub.root == RelayedRoot(w, j) && sub.beefyRoot == BeefyRoot(w.relay[..m]) && CarriesBlock(w, sub, j', m')
    ensures j == j' && m == m'
  {
    ChannelRootsPinHeight(w, j, j');
    BeefyRootsNeverRepeat(w, m, m');
  }

  // ---------------------------------------------------------------- honest worlds exist for every sender history

  /** No log carries a channel root. */
  ghost predicate CarryNone(logs: seq<Log>) {
    forall i, r :: 0 <= i < |logs| ==> !Carries(logs[i], r)
  }

  /** A header whose digest has a log with a channel root between other logs. */
  function HeaderCarrying(number: nat, before: seq<Log>, root: H256, after: seq<Log>): Header {
    Header(Zero, number, Zero, Zero, before + [Log(XCMR_ENGINE, [Digest(root)])] + after)
  }

  lemma CarriedRootIsExtracted(number: nat, before: seq<Log>, root: H256, after: seq<Log>)
    requires CarryNone(before)
    ensures ExtractChannelRoot(HeaderCarrying(number, before, root, after).digest) == Some(root)
  {
    var digest := HeaderCarrying(number, before, root, after).digest;
    assert CarriesFirst(digest, |before|, root);
    ExtractsFirstRoot(digest, root);
  }

  /** A header of block `j + 1` with the channel tree root of that block. */
  function HeaderAt(blocks: seq<SenderBlock>, j: nat, before: seq<Log>, after: seq<Log>): Header
    requires AllReady(blocks) && j < |blocks|
  {
    HeaderCarrying(j, before, CollectRoots(Produce(blocks[..j + 1])), after)
  }

  /** A relay block whose only para head is the given header, and whose leaf commits to it. */
  function RelayBlockWith(h: Header): RelayBlock {
    var heads := [ParaLeaf(SENDER_PARA, EncodeHeader(h))];
    RelayBlock(BeefyLeaf(0, 0, Zero, 0, 0, Zero, HeadsRoot(heads)), heads)
  }

  /** The relay chain includes every sender block in a block of its own. */
  function LockstepWorld(blocks: seq<SenderBlock>, before: seq<Log>, after: seq<Log>): (w: World)
    requires AllReady(blocks)
    ensures w.blocks == blocks && |w.headers| == |blocks| && |w.relay| == |blocks|
    ensures forall j :: 0 <= j < |blocks| ==> w.headers[j] == HeaderAt(blocks, j, before, after)
    ensures forall j :: 0 <= j < |blocks| ==> w.relay[j] == RelayBlockWith(w.headers[j])
  {
    var headers := seq(|blocks|, j requires 0 <= j < |blocks| => HeaderAt(blocks, j, before, after));
    World(blocks, headers, seq(|headers|, j requires 0 <= j < |headers| => RelayBlockWith(headers[j])))
  }

  lemma LockstepRelayIsHonest(w: World, n: nat)
    requires |w.relay| == |w.headers| && n < |w.relay| && w.relay[n] == RelayBlockWith(w.headers[n])
    ensures HeadsAreHeaders(w, w.relay[n].heads) && NamesHeads(w, n)
  {
    assert w.relay[n].heads[0].headData == EncodeHeader(w.headers[n]);
  }

  lemma LockstepHeadersCarryRoots(blocks: seq<SenderBlock>, before: seq<Log>, after: seq<Log>)
    requires AllReady(blocks) && CarryNone(before)
    ensures HeadersCarryRoots(LockstepWorld(blocks, before, after))
  {
    forall j | 0 <= j < |blocks|
      ensures ExtractChannelRoot(HeaderAt(blocks, j, before, after).digest)
              == Some(CollectRoots(Produce(blocks[..j + 1])))
    {
      CarriedRootIsExtracted(j, before, CollectRoots(Produce(blocks[..j + 1])), after);
    }
  }

  lemma LockstepIsHonest(blocks: seq<SenderBlock>, before: seq<Log>, after: seq<Log>)
    requires AllReady(blocks) && CarryNone(before)
    ensures Honest(LockstepWorld(blocks, before, after))
  {
    var w := LockstepWorld(blocks, before, after);
    forall n | 0 <= n < |w.relay|
      ensures HeadsAreHeaders(w, w.relay[n].heads) && NamesHeads(w, n)
    {
      LockstepRelayIsHonest(w, n);
    }
    LockstepHeadersCarryRoots(blocks, before, after);
  }

  /** The assumptions of the end-to-end theorems hold together for every sender history, with every
      block of the history included by the relay chain, and with any logs in the headers after the one with
      the channel root and any that carry no root before it. */
  lemma HonestWorldsExist(blocks: seq<SenderBlock>, j: nat, before: seq<Log>, after: seq<Log>)
    requires AllReady(blocks) && 0 < j <= |blocks| && CarryNone(before)
    ensures Honest(LockstepWorld(blocks, before, after)) && Included(LockstepWorld(blocks, before, after), j, j - 1, 0, j)
  {
    LockstepIsHonest(blocks, before, after);
  }

  /** Heights that differ are a reachable loss: for every sender history of two or more blocks there is
      an honest world and a run of the relayer that consumes the message of the first block and submits
      a proof which no chain accepts. */
  lemma DifferentHeightsLoseMessages(
    blocks: seq<SenderBlock>, lt: (H256, H256) -> bool, before: seq<Log>, after: seq<Log>)
    returns (states: seq<State>, steps: seq<Step>, sub: Submission)
    requires AllReady(blocks) && |blocks| >= 2 && CarryNone(before)
    ensures var w := LockstepWorld(blocks, before, after);
            && Honest(w) && ValidRun(lt, states, steps)
            && forall p :: 0 <= p < |steps| ==> ServedBy(w, states[p], steps[p])
    ensures states[|steps|].submitted == [sub] && sub.root !in states[|steps|].maps.messages
    ensures CarriesBlock(LockstepWorld(blocks, before, after), sub, 1, 2)
    ensures forall seen :: !Receiver.Accepts(seen, sub.xcmp, sub.beefyRoot)
  {
    HonestWorldsExist(blocks, 1, before, after);
    states, steps, sub := EveryBlockCanBeDelivered(LockstepWorld(blocks, before, after), lt, 1, 0, 0, 1, 2);
  }
}

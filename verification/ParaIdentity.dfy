/** What can be delivered, by para. The receiver accepts a head of any para, so a caller that wants the
    messages of the sender has to compare the para id of the head with the sender's; for the sender's para,
    what can be delivered is exactly what was sent. */
module ParaIdentity {
  import opened Hashing
  import opened Codec
  import opened ProofTypes
  import opened Sender
  import opened EndToEnd
  import BinaryMerkle
  import Mmr
  import Receiver

  // ---------------------------------------------------------------- what any para commits to is accepted

  /** The digest of head `i` of relay block `k`, of whatever para, names a tree of channel roots, and the
      Beefy leaf of relay block `n` commits to the heads of block `k`. */
  predicate CommitsChannels(w: World, k: nat, i: nat, n: nat, roots: seq<H256>) {
    && k < |w.relay| && 0 < n <= |w.relay|
    && i < |w.relay[k].heads| <= Receiver.USIZE_MAX && |roots| <= Receiver.USIZE_MAX
    && w.relay[n - 1].leaf.leafExtra == HeadsRoot(w.relay[k].heads)
    && Receiver.ExtractXcmpChannelRoot(w.relay[k].heads[i]) == Receiver.Extracted(ChannelTreeRoot(roots))
  }

  /** The leaf of relay block `n` and its proof under the Beefy root of height `height`. */
  function BeefyStage(relay: seq<RelayBlock>, n: nat, height: nat): (Mmr.MmrProof, seq<Blob>)
    requires 0 < n <= height <= |relay|
  {
    var p := Mmr.GenerateProof(BeefyLeaves(relay[..height]), [n - 1]);
    (p.1, p.0)
  }

  function MessageStage(leaves: seq<Blob>, indices: seq<nat>): (Mmr.MmrProof, seq<Blob>)
    requires leaves != [] && Mmr.ValidIndices(indices, |leaves|)
  {
    var p := Mmr.GenerateProof(leaves, indices);
    (p.1, p.0)
  }

  lemma BeefyStageVerifies(relay: seq<RelayBlock>, n: nat, height: nat)
    requires 0 < n <= height <= |relay|
    ensures var (proof, leaves) := BeefyStage(relay, n, height);
            && Mmr.VerifyLeavesProof(BeefyRoot(relay[..height]), leaves, proof)
            && |leaves| == 1 && DecodeBeefyLeaf(leaves[0]) == Some(relay[n - 1].leaf)
  {
    Mmr.ProofsVerify(BeefyLeaves(relay[..height]), [n - 1]);
    assert BeefyStage(relay, n, height).1[0] == EncodeBeefyLeaf(relay[n - 1].leaf);
    BeefyLeafRoundTrip(relay[n - 1].leaf);
  }

  /** Acceptance makes no difference between paras: for every head the relay chain has committed to, every
      channel of the tree its digest names and every choice of leaves of that channel, there is a proof with
      that head and these leaves which every receiver accepts that has seen a Beefy root of any height from
      the commitment on. */
  lemma CommittedLeavesAreAccepted(
    w: World, k: nat, i: nat, n: nat, height: nat, roots: seq<H256>, c: nat, leaves: seq<Blob>, indices: seq<nat>,
    seen: set<H256>)
    returns (x: XcmpProof)
    requires CommitsChannels(w, k, i, n, roots) && n <= height <= |w.relay| && c < |roots|
    requires leaves != [] && roots[c] == Mmr.MmrRoot(leaves) && Mmr.ValidIndices(indices, |leaves|)
    requires BeefyRoot(w.relay[..height]) in seen
    ensures x.stage2.leaf == w.relay[k].heads[i] && x.stage3.leaf == roots[c]
    ensures |x.stage4.1| == |indices| && forall p :: 0 <= p < |indices| ==> x.stage4.1[p] == leaves[indices[p]]
    ensures Receiver.Accepts(seen, x, BeefyRoot(w.relay[..height]))
  {
    x := XcmpProof(BeefyStage(w.relay, n, height), HeadsProof(w.relay[k].heads, i), ChannelTreeProof(roots, c),
                   MessageStage(leaves, indices));
    BeefyStageVerifies(w.relay, n, height);
    BinaryMerkle.ProofsVerify(EncodedHeads(w.relay[k].heads), i);
    ChannelTreeAgreement(roots, c);
    Mmr.ProofsVerify(leaves, indices);
  }

  // ---------------------------------------------------------------- soundness holds for the sender's para only

  /** A head of para `q` whose only channel has one leaf. */
  function HeadOver(q: nat, leaf: Blob): ParaLeaf {
    ParaLeaf(q, EncodeHeader(HeaderCarrying(0, [], ChannelTreeRoot([Mmr.MmrRoot([leaf])]), [])))
  }

  lemma HeadOverNamesChannel(q: nat, leaf: Blob)
    ensures Receiver.ExtractXcmpChannelRoot(HeadOver(q, leaf))
            == Receiver.Extracted(ChannelTreeRoot([Mmr.MmrRoot([leaf])]))
  {
    var root := ChannelTreeRoot([Mmr.MmrRoot([leaf])]);
    CarriedRootIsExtracted(0, [], root, []);
    Receiver.ExtractionReadsHeader(HeadOver(q, leaf), HeaderCarrying(0, [], root, []));
  }

  /** One more relay block. */
  function Extended(w: World, b: RelayBlock): World {
    w.(relay := w.relay + [b])
  }

  lemma HeadsRootStays(w: World, v: World, root: H256)
    requires IsHeadsRoot(w, root) && w.relay <= v.relay
    ensures IsHeadsRoot(v, root)
  {
    var k :| 0 <= k < |w.relay| && root == HeadsRoot(w.relay[k].heads);
    assert v.relay[k] == w.relay[k];
  }

  lemma ExtensionNamesHeads(w: World, b: RelayBlock)
    requires LeavesNameHeads(w) && b.leaf.leafExtra == HeadsRoot(b.heads)
    ensures LeavesNameHeads(Extended(w, b))
  {
    var v := Extended(w, b);
    forall n | 0 <= n < |v.relay|
      ensures NamesHeads(v, n)
    {
      if n < |w.relay| {
        assert NamesHeads(w, n) && v.relay[n] == w.relay[n];
        HeadsRootStays(w, v, w.relay[n].leaf.leafExtra);
      } else {
        assert v.relay[n] == b;
      }
    }
  }

  /** The history stays honest, since nothing is promised about heads of other paras. */
  lemma ExtensionIsHonest(w: World, b: RelayBlock)
    requires Honest(w) && b.leaf.leafExtra == HeadsRoot(b.heads)
    requires forall i :: 0 <= i < |b.heads| ==> b.heads[i].paraId != SENDER_PARA
    ensures Honest(Extended(w, b))
  {
    var v := Extended(w, b);
    ExtensionNamesHeads(w, b);
    forall n | 0 <= n < |v.relay|
      ensures HeadsAreHeaders(v, v.relay[n].heads)
    {
      if n < |w.relay| {
        assert v.relay[n] == w.relay[n] && HeadsAreHeaders(w, w.relay[n].heads);
        HeadsStayHeaders(w, v, w.relay[n].heads);
      }
    }
  }

  lemma HeadsStayHeaders(w: World, v: World, heads: seq<ParaLeaf>)
    requires v.headers == w.headers && HeadsAreHeaders(w, heads)
    ensures HeadsAreHeaders(v, heads)
  {
    forall i | 0 <= i < |heads| && heads[i].paraId == SENDER_PARA
      ensures IsSenderHeader(v, heads[i].headData)
    {
      assert IsSenderHeader(w, heads[i].headData);
    }
  }

  /** A relay block with a single head, whose leaf commits to it. */
  function BlockOf(head: ParaLeaf): (b: RelayBlock)
    ensures b.heads == [head] && b.leaf.leafExtra == HeadsRoot([head])
  {
    RelayBlock(BeefyLeaf(0, 0, Zero, 0, 0, Zero, HeadsRoot([head])), [head])
  }

  /** A receiver that has seen the Beefy root of the whole relay chain. */
  function SeenLatest(w: World): seq<Receiver.Call> {
    [Receiver.BlockStart(1, Some(BeefyRoot(w.relay)))]
  }

  lemma LatestRootIsSeen(w: World)
    ensures RootsFromRelay(w, SeenLatest(w)) && BeefyRoot(w.relay) in SeenOn(SeenLatest(w))
  {
    var call := Receiver.BlockStart(1, Some(BeefyRoot(w.relay)));
    assert SeenLatest(w)[..0] == [] && SeenLatest(w)[0] == call;
    assert Receiver.Run(Receiver.EMPTY, SeenLatest(w)) == Receiver.Apply(Receiver.EMPTY, call);
    assert w.relay[..|w.relay|] == w.relay;
  }

  /** The last relay block commits to its own single head. */
  lemma LastBlockCommits(v: World, b: RelayBlock, head: ParaLeaf, roots: seq<H256>)
    requires |v.relay| > 0 && v.relay[|v.relay| - 1] == b
    requires b.heads == [head] && b.leaf.leafExtra == HeadsRoot([head]) && |roots| == 1
    requires Receiver.ExtractXcmpChannelRoot(head) == Receiver.Extracted(ChannelTreeRoot(roots))
    ensures CommitsChannels(v, |v.relay| - 1, 0, |v.relay|, roots)
  {
  }

  /** Whatever the sender has done: for every other para and every leaf content, there is an honest history
      with the same sender blocks in which a proof with a head of that para and exactly that leaf is accepted. */
  lemma OtherParaIsAccepted(w: World, q: nat, leaf: Blob) returns (v: World, calls: seq<Receiver.Call>, x: XcmpProof)
    requires Honest(w) && q != SENDER_PARA
    ensures v.blocks == w.blocks && v.headers == w.headers && w.relay <= v.relay
    ensures AcceptedOn(v, calls, x, BeefyRoot(v.relay))
    ensures x.stage2.leaf.paraId == q && x.stage3.leaf == Mmr.MmrRoot([leaf]) && x.stage4.1 == [leaf]
  {
    var head, roots := HeadOver(q, leaf), [Mmr.MmrRoot([leaf])];
    HeadOverNamesChannel(q, leaf);
    v := Extended(w, BlockOf(head));
    calls := SeenLatest(v);
    ExtensionIsHonest(w, BlockOf(head));
    LatestRootIsSeen(v);
    LastBlockCommits(v, BlockOf(head), head, roots);
    var n := |v.relay|;
    assert v.relay[..n] == v.relay;
    x := CommittedLeavesAreAccepted(v, n - 1, 0, n, n, roots, 0, [leaf], [0], SeenOn(calls));
  }

  /** Over every honest history with these sender blocks and every run of the receiver, an accepted proof
      with a head of para `q` delivers what the sender sent. */
  ghost predicate SoundFor(blocks: seq<SenderBlock>, q: nat) {
    forall w: World, calls, x, beefyRoot ::
      w.blocks == blocks && AcceptedOn(w, calls, x, beefyRoot) && x.stage2.leaf.paraId == q ==> Delivers(w, x)
  }

  /** No channel of the sender is a channel of one empty leaf. */
  lemma EmptyLeafIsNotDelivered(w: World, x: XcmpProof)
    requires AllReady(w.blocks) && x.stage3.leaf == Mmr.MmrRoot([[]])
    ensures !Delivers(w, x)
  {
    forall j: nat, para: nat
      ensures !DeliversSentMessages(w, x, j, para)
    {
      if 0 < j <= |w.blocks| && (para == PARA_A || para == PARA_B) {
        var leaves := MessageLeaves(w.blocks[..j], para);
        assert leaves[0] != [];
        if Mmr.MmrRoot([[]]) == Mmr.MmrRoot(leaves) {
          Mmr.MmrRootInjective([[]], leaves);
        }
      }
    }
  }

  /** The exact condition: whatever the sender has produced, accepted proofs with a head of para `q` are
      sound if and only if `q` is the para of the sender. */
  lemma ParaIdDecides(blocks: seq<SenderBlock>, q: nat)
    requires AllReady(blocks)
    ensures SoundFor(blocks, q) <==> q == 1000
  {
    if q == SENDER_PARA {
      forall w: World, calls, x, beefyRoot |
          w.blocks == blocks && AcceptedOn(w, calls, x, beefyRoot) && x.stage2.leaf.paraId == q
        ensures Delivers(w, x)
      {
        AcceptedProofsDeliverSentMessages(w, calls, x, beefyRoot);
      }
    } else {
      LockstepIsHonest(blocks, [], []);
      var v, calls, x := OtherParaIsAccepted(LockstepWorld(blocks, [], []), q, []);
      EmptyLeafIsNotDelivered(v, x);
    }
  }

  // ---------------------------------------------------------------- for the sender's para: deliverable iff sent

  /** Some proof with a head of the sender and exactly this leaf is accepted. */
  ghost predicate Deliverable(seen: set<H256>, leaf: Blob) {
    exists x, beefyRoot ::
      Receiver.Accepts(seen, x, beefyRoot) && x.stage2.leaf.paraId == SENDER_PARA && x.stage4.1 == [leaf]
  }

  /** The leaf was sent to para 1 or 2 in a block up to `j`, and the header of block `j` is committed to up
      to a relay height whose Beefy root has been seen. */
  ghost predicate SentAndSeen(w: World, seen: set<H256>, leaf: Blob, j: nat, para: nat, height: nat)
    requires AllReady(w.blocks)
  {
    && 0 < j <= |w.blocks| && (para == 1 || para == 2) && IsSentLeaf(w.blocks[..j], para, leaf)
    && height <= |w.relay| && BeefyRoot(w.relay[..height]) in seen
    && IncludedBy(w, j, height)
  }

  ghost predicate IncludedBy(w: World, j: nat, height: nat) {
    exists k: nat, i: nat, n: nat :: Included(w, j, k, i, n) && n <= height
  }

  predicate HeadsFit(w: World) {
    forall k :: 0 <= k < |w.relay| ==> |w.relay[k].heads| < 0x1_0000_0000
  }

  lemma AcceptedLeafWasSent(w: World, calls: seq<Receiver.Call>, x: XcmpProof, beefyRoot: H256, leaf: Blob)
    requires AcceptedOn(w, calls, x, beefyRoot) && HeadsFit(w) && !IsPair(leaf)
    requires x.stage2.leaf.paraId == SENDER_PARA && x.stage4.1 == [leaf]
    ensures exists j: nat, para: nat, height: nat :: SentAndSeen(w, SeenOn(calls), leaf, j, para, height)
  {
    var k, i, n, height, j := AcceptedHeadIsSenderHead(w, calls, x, beefyRoot);
    Receiver.AcceptedIsBacked(SeenOn(calls), x, beefyRoot);
    var para := VerifiedChannelDelivers(w, x, j);
    assert x.stage4.1[0] == leaf;
    assert Included(w, j, k, i, n);
    assert SentAndSeen(w, SeenOn(calls), leaf, j, para, height);
  }

  /** The header of an included block commits to both channels of the sender. */
  lemma IncludedCommitsChannels(w: World, j: nat, height: nat, roots: seq<H256>) returns (k: nat, i: nat, n: nat)
    requires AllReady(w.blocks) && HeadersCarryRoots(w) && 0 < j <= |w.blocks| && IncludedBy(w, j, height)
    requires roots == ChannelRoots(Produce(w.blocks[..j]))
    ensures CommitsChannels(w, k, i, n, roots) && n <= height && w.relay[k].heads[i].paraId == SENDER_PARA
  {
    k, i, n :| Included(w, j, k, i, n) && n <= height;
    Receiver.ExtractionReadsHeader(w.relay[k].heads[i], w.headers[j - 1]);
  }

  lemma ChannelRootOf(blocks: seq<SenderBlock>, para: nat) returns (c: nat)
    requires AllReady(blocks) && (para == 1 || para == 2)
    ensures var roots := ChannelRoots(Produce(blocks));
            c < |roots| && roots[c] == Mmr.MmrRoot(MessageLeaves(blocks, para))
  {
    LeavesAreMessageLeaves(blocks);
    c := para - 1;
  }

  lemma LeafOfChannelIsAccepted(
    w: World, seen: set<H256>, k: nat, i: nat, n: nat, height: nat, roots: seq<H256>, c: nat, leaves: seq<Blob>, leaf: Blob)
    requires CommitsChannels(w, k, i, n, roots) && n <= height <= |w.relay| && BeefyRoot(w.relay[..height]) in seen
    requires w.relay[k].heads[i].paraId == SENDER_PARA
    requires c < |roots| && roots[c] == Mmr.MmrRoot(leaves) && leaf in leaves
    ensures Deliverable(seen, leaf)
  {
    var p :| 0 <= p < |leaves| && leaves[p] == leaf;
    var x := CommittedLeavesAreAccepted(w, k, i, n, height, roots, c, leaves, [p], seen);
    assert x.stage4.1 == [leaf];
  }

  /** The channel of a sent leaf among the channel roots. */
  lemma ChannelOfSentLeaf(blocks: seq<SenderBlock>, para: nat, leaf: Blob)
    returns (roots: seq<H256>, c: nat, leaves: seq<Blob>)
    requires AllReady(blocks) && (para == 1 || para == 2) && IsSentLeaf(blocks, para, leaf)
    ensures roots == ChannelRoots(Produce(blocks))
    ensures c < |roots| && roots[c] == Mmr.MmrRoot(leaves) && leaf in leaves
  {
    roots, leaves := ChannelRoots(Produce(blocks)), MessageLeaves(blocks, para);
    c := ChannelRootOf(blocks, para);
    IsSentLeafIff(blocks, para, leaf);
  }

  lemma SentLeafIsAccepted(w: World, seen: set<H256>, leaf: Blob, j: nat, para: nat, height: nat)
    requires AllReady(w.blocks) && HeadersCarryRoots(w) && SentAndSeen(w, seen, leaf, j, para, height)
    ensures Deliverable(seen, leaf)
  {
    var roots, c, leaves := ChannelOfSentLeaf(w.blocks[..j], para, leaf);
    var k, i, n := IncludedCommitsChannels(w, j, height, roots);
    LeafOfChannelIsAccepted(w, seen, k, i, n, height, roots, c, leaves, leaf);
  }

  /** Soundness and completeness of the receiver in one: on any honest history and any run of the receiver, a
      leaf not shaped like an inner node is deliverable for the sender if and only if the sender sent it, in
      either channel, up to a block that is committed to under a Beefy root the receiver has seen. */
  lemma DeliverableIffSent(w: World, calls: seq<Receiver.Call>, leaf: Blob)
    requires Honest(w) && RootsFromRelay(w, calls) && HeadsFit(w) && !IsPair(leaf)
    ensures Deliverable(SeenOn(calls), leaf) <==>
            exists j: nat, para: nat, height: nat :: SentAndSeen(w, SeenOn(calls), leaf, j, para, height)
  {
    if Deliverable(SeenOn(calls), leaf) {
      var x, beefyRoot :|
        Receiver.Accepts(SeenOn(calls), x, beefyRoot) && x.stage2.leaf.paraId == SENDER_PARA && x.stage4.1 == [leaf];
      AcceptedLeafWasSent(w, calls, x, beefyRoot, leaf);
    }
    if j: nat, para: nat, height: nat :| SentAndSeen(w, SeenOn(calls), leaf, j, para, height) {
      SentLeafIsAccepted(w, SeenOn(calls), leaf, j, para, height);
    }
  }
}

/** The message stuffer pallet on the receiving parachain: the record of seen Beefy roots, the
    channel roots, and the checks of submitted proofs. */
module Receiver {
  import opened Hashing
  import opened Codec
  import opened ProofTypes
  import BinaryMerkle
  import Mmr

  datatype Error =
    | BadOrigin
    | XcmpProofNotValid
    | XcmpNoChannelRootForChannelId
    | XcmpBeefyRootTargetedNeverSeen
    | XcmpStage1LeavesTooLarge
    | XcmpStage1ProofDoesntVerify
    | XcmpStage2RootDoesntMatch
    | XcmpStage2LeafDoesntDecode
    | XcmpStage2ProofDoesntVerify
    | XcmpStage3HeaderDoesntDecode
    | XcmpStage3CannotBeExtracted
    | XcmpStage3RootDoesntMatch
    | XcmpStage3ProofDoesntVerify
    | XcmpStage4ProofDoesntVerify

  /** A dispatch succeeds, returns an error, or traps (a failed `unwrap` or index). */
  datatype Outcome = Ok | Err(error: Error) | Trap

  datatype Origin = Signed | Unsigned

  datatype Event = XcmpMessagesAccepted(mmrChannelRoot: H256, channelId: nat)

  datatype Storage = Storage(
    seenBeefyRoots: map<H256, nat>,
    seenBeefyRootsOrder: seq<H256>,
    xcmpChannelRoots: map<nat, H256>,
    events: seq<Event>)

  const EMPTY := Storage(map[], [], map[], [])

  /** The largest size the 32-bit runtime can hold in a `usize`. */
  const USIZE_MAX: nat := 0xFFFF_FFFF

  predicate FitsUsize(numLeaves: nat, leafIndex: nat) {
    numLeaves <= USIZE_MAX && leafIndex <= USIZE_MAX
  }

  // ---------------------------------------------------------------- the checks of a four-stage proof

  datatype Extraction = Extracted(root: H256) | NotExtracted(error: Error)

  function ExtractXcmpChannelRoot(leaf: ParaLeaf): Extraction {
    var header := DecodeHeader(leaf.headData);
    if header.None? then NotExtracted(XcmpStage3HeaderDoesntDecode)
    else
      var root := ExtractChannelRoot(header.value.digest);
      if root.None? then NotExtracted(XcmpStage3CannotBeExtracted) else Extracted(root.value)
  }

  /** Extraction reads back the channel root that a header was built with. */
  lemma ExtractionReadsHeader(leaf: ParaLeaf, h: Header)
    requires leaf.headData == EncodeHeader(h)
    ensures ExtractXcmpChannelRoot(leaf) ==
            match ExtractChannelRoot(h.digest)
            case Some(root) => Extracted(root)
            case None => NotExtracted(XcmpStage3CannotBeExtracted)
  {
    HeaderRoundTrip(h);
  }

  /** Extraction yields a root exactly when the head data begins with a header whose first log to carry a
      root carries that one; it names the header as undecodable exactly when no header is there. */
  lemma ExtractionIsExact(leaf: ParaLeaf, root: H256)
    ensures ExtractXcmpChannelRoot(leaf) == Extracted(root) <==>
            exists h, k: nat :: EncodeHeader(h) <= leaf.headData && CarriesFirst(h.digest, k, root)
    ensures ExtractXcmpChannelRoot(leaf) == NotExtracted(XcmpStage3HeaderDoesntDecode) <==>
            forall h :: !(EncodeHeader(h) <= leaf.headData)
    ensures ExtractXcmpChannelRoot(leaf).NotExtracted? ==>
              ExtractXcmpChannelRoot(leaf).error in {XcmpStage3HeaderDoesntDecode, XcmpStage3CannotBeExtracted}
  {
    forall h
      ensures DecodeHeader(leaf.headData) == Some(h) <==> EncodeHeader(h) <= leaf.headData
    {
      DecodeHeaderIff(leaf.headData, h);
    }
    var header := DecodeHeader(leaf.headData);
    if header.Some? {
      assert EncodeHeader(header.value) <= leaf.headData;
      ExtractsFirstRoot(header.value.digest, root);
    }
  }

  predicate Stage1Verifies(x: XcmpProof, beefyRoot: H256) {
    Mmr.VerifyLeavesProof(beefyRoot, x.stage1.1, x.stage1.0)
  }

  predicate Stage4Verifies(x: XcmpProof) {
    Mmr.VerifyLeavesProof(x.stage3.leaf, x.stage4.1, x.stage4.0)
  }

  // The ladder of checks: each predicate says that everything up to a stage has passed, and
  // each root comes out of the leaf verified at the stage before.

  predicate PassesStage1(seen: set<H256>, x: XcmpProof, beefyRoot: H256) {
    beefyRoot in seen && Stage1Verifies(x, beefyRoot)
  }

  predicate NamesHeadsRoot(seen: set<H256>, x: XcmpProof, beefyRoot: H256) {
    && PassesStage1(seen, x, beefyRoot)
    && |x.stage1.1| == 1
    && DecodeBeefyLeaf(x.stage1.1[0]).Some?
    && DecodeBeefyLeaf(x.stage1.1[0]).value.leafExtra == x.stage2.root
  }

  predicate PassesStage2(seen: set<H256>, x: XcmpProof, beefyRoot: H256) {
    && NamesHeadsRoot(seen, x, beefyRoot)
    && FitsUsize(x.stage2.numLeaves, x.stage2.leafIndex)
    && HeadProofVerifies(x.stage2)
  }

  predicate NamesChannelRoot(seen: set<H256>, x: XcmpProof, beefyRoot: H256) {
    PassesStage2(seen, x, beefyRoot) && ExtractXcmpChannelRoot(x.stage2.leaf) == Extracted(x.stage3.root)
  }

  predicate PassesStage3(seen: set<H256>, x: XcmpProof, beefyRoot: H256) {
    && NamesChannelRoot(seen, x, beefyRoot)
    && FitsUsize(x.stage3.numLeaves, x.stage3.leafIndex)
    && ChannelProofVerifies(x.stage3)
  }

  predicate Accepts(seen: set<H256>, x: XcmpProof, beefyRoot: H256) {
    PassesStage3(seen, x, beefyRoot) && Stage4Verifies(x)
  }

  /** The outcome of the whole chain of checks, in the order of the code. */
  function XcmpOutcome(seen: set<H256>, origin: Origin, x: XcmpProof, beefyRoot: H256): Outcome {
    if origin != Signed then Err(BadOrigin)
    else if beefyRoot !in seen then Err(XcmpBeefyRootTargetedNeverSeen)
    else if !Stage1Verifies(x, beefyRoot) then Err(XcmpStage1ProofDoesntVerify)
    else if |x.stage1.1| > 1 then Err(XcmpStage1LeavesTooLarge)
    else if |x.stage1.1| == 0 then Trap
    else if DecodeBeefyLeaf(x.stage1.1[0]).None? then Err(XcmpStage2LeafDoesntDecode)
    else if DecodeBeefyLeaf(x.stage1.1[0]).value.leafExtra != x.stage2.root then Err(XcmpStage2RootDoesntMatch)
    else if !FitsUsize(x.stage2.numLeaves, x.stage2.leafIndex) then Trap
    else if !HeadProofVerifies(x.stage2) then Err(XcmpStage2ProofDoesntVerify)
    else LowerOutcome(x)
  }

  /** The outcome of the checks below the para head. */
  function LowerOutcome(x: XcmpProof): Outcome {
    match ExtractXcmpChannelRoot(x.stage2.leaf)
    case NotExtracted(e) => Err(e)
    case Extracted(root) =>
      if root != x.stage3.root then Err(XcmpStage3RootDoesntMatch)
      else if !FitsUsize(x.stage3.numLeaves, x.stage3.leafIndex) then Trap
      else if !ChannelProofVerifies(x.stage3) then Err(XcmpStage3ProofDoesntVerify)
      else if !Stage4Verifies(x) then Err(XcmpStage4ProofDoesntVerify)
      else Ok
  }

  /** A submission is accepted exactly when it is signed and passes every stage. */
  lemma OkIffAccepts(seen: set<H256>, origin: Origin, x: XcmpProof, beefyRoot: H256)
    ensures XcmpOutcome(seen, origin, x, beefyRoot) == Ok <==> origin == Signed && Accepts(seen, x, beefyRoot)
  {
  }

  /** An error of the first tier occurs exactly when its check is the first one to fail. */
  lemma Stage1Errors(seen: set<H256>, origin: Origin, x: XcmpProof, beefyRoot: H256)
    ensures var o := XcmpOutcome(seen, origin, x, beefyRoot);
            && (o == Err(BadOrigin) <==> origin != Signed)
            && (o == Err(XcmpBeefyRootTargetedNeverSeen) <==> origin == Signed && beefyRoot !in seen)
            && (o == Err(XcmpStage1ProofDoesntVerify) <==>
                  origin == Signed && beefyRoot in seen && !Stage1Verifies(x, beefyRoot))
            && (o == Err(XcmpStage1LeavesTooLarge) <==>
                  origin == Signed && PassesStage1(seen, x, beefyRoot) && |x.stage1.1| > 1)
  {
  }

  /** The same for the errors of the second tier. */
  lemma Stage2Errors(seen: set<H256>, x: XcmpProof, beefyRoot: H256)
    ensures var o := XcmpOutcome(seen, Signed, x, beefyRoot);
            var leaves := x.stage1.1;
            && (o == Err(XcmpStage2LeafDoesntDecode) <==>
                  PassesStage1(seen, x, beefyRoot) && |leaves| == 1 && DecodeBeefyLeaf(leaves[0]).None?)
            && (o == Err(XcmpStage2RootDoesntMatch) <==>
                  && PassesStage1(seen, x, beefyRoot) && |leaves| == 1 && DecodeBeefyLeaf(leaves[0]).Some?
                  && DecodeBeefyLeaf(leaves[0]).value.leafExtra != x.stage2.root)
            && (o == Err(XcmpStage2ProofDoesntVerify) <==>
                  && NamesHeadsRoot(seen, x, beefyRoot) && FitsUsize(x.stage2.numLeaves, x.stage2.leafIndex)
                  && !HeadProofVerifies(x.stage2))
  {
  }

  /** The same for the errors of the third tier. */
  lemma Stage3Errors(seen: set<H256>, x: XcmpProof, beefyRoot: H256)
    ensures var o := XcmpOutcome(seen, Signed, x, beefyRoot);
            var extracted := ExtractXcmpChannelRoot(x.stage2.leaf);
            && (o == Err(XcmpStage3HeaderDoesntDecode) <==>
                  PassesStage2(seen, x, beefyRoot) && extracted == NotExtracted(XcmpStage3HeaderDoesntDecode))
            && (o == Err(XcmpStage3CannotBeExtracted) <==>
                  PassesStage2(seen, x, beefyRoot) && extracted == NotExtracted(XcmpStage3CannotBeExtracted))
            && (o == Err(XcmpStage3RootDoesntMatch) <==>
                  PassesStage2(seen, x, beefyRoot) && extracted.Extracted? && extracted.root != x.stage3.root)
            && (o == Err(XcmpStage3ProofDoesntVerify) <==>
                  && NamesChannelRoot(seen, x, beefyRoot) && FitsUsize(x.stage3.numLeaves, x.stage3.leafIndex)
                  && !ChannelProofVerifies(x.stage3))
  {
  }

  /** The same for the error of the fourth tier. */
  lemma Stage4Error(seen: set<H256>, x: XcmpProof, beefyRoot: H256)
    ensures XcmpOutcome(seen, Signed, x, beefyRoot) == Err(XcmpStage4ProofDoesntVerify) <==>
            PassesStage3(seen, x, beefyRoot) && !Stage4Verifies(x)
  {
  }

  /** A signed submission traps exactly on an empty stage-1 leaf list or on sizes beyond `usize`,
      when everything before has passed. */
  lemma TrapIff(seen: set<H256>, x: XcmpProof, beefyRoot: H256)
    ensures XcmpOutcome(seen, Signed, x, beefyRoot) == Trap <==>
            || (PassesStage1(seen, x, beefyRoot) && x.stage1.1 == [])
            || (NamesHeadsRoot(seen, x, beefyRoot)
                && (x.stage2.numLeaves >= 0x1_0000_0000 || x.stage2.leafIndex >= 0x1_0000_0000))
            || (NamesChannelRoot(seen, x, beefyRoot)
                && (x.stage3.numLeaves >= 0x1_0000_0000 || x.stage3.leafIndex >= 0x1_0000_0000))
  {
  }

  /** For every seen root there is a submission that traps: one with no stage-1 leaves. */
  lemma TrapReachableIff(seen: set<H256>, beefyRoot: H256)
    ensures (exists x :: XcmpOutcome(seen, Signed, x, beefyRoot) == Trap) <==> beefyRoot in seen
  {
    Mmr.EmptyClaimVerifies(beefyRoot);
    var x := XcmpProof((Mmr.MmrProof([], 1, [beefyRoot]), []), ParaMerkleProof(Zero, [], 0, 0, ParaLeaf(0, [])),
                       ChannelMerkleProof(Zero, [], 0, 0, Zero), (Mmr.MmrProof([], 0, []), []));
    assert beefyRoot in seen ==> XcmpOutcome(seen, Signed, x, beefyRoot) == Trap;
  }

  // ---------------------------------------------------------------- calls as state transitions

  datatype Call =
    | BlockStart(number: nat, provided: Option<H256>)
    | UpdateRoot(origin: Origin, root: H256, channelId: nat)
    | SubmitTestProof(origin: Origin, proof: Mmr.MmrProof, leaves: seq<Blob>, channelId: nat)
    | SubmitXcmpProof(origin: Origin, xcmp: XcmpProof, beefyRoot: H256)

  /** The root recorded at a block start: the default, zero, when the provider has none. */
  function ProvidedRoot(provided: Option<H256>): H256 {
    if provided.Some? then provided.value else Zero
  }

  function TestProofOutcome(roots: map<nat, H256>, c: Call): Outcome
    requires c.SubmitTestProof?
  {
    if c.origin != Signed then Err(BadOrigin)
    else if c.channelId !in roots then Err(XcmpNoChannelRootForChannelId)
    else if !Mmr.VerifyLeavesProof(roots[c.channelId], c.leaves, c.proof) then Err(XcmpProofNotValid)
    else Ok
  }

  /** Each outcome of a test proof occurs exactly when its check is the first to fail. */
  lemma TestProofOutcomes(roots: map<nat, H256>, origin: Origin, proof: Mmr.MmrProof, leaves: seq<Blob>, id: nat)
    ensures var o := TestProofOutcome(roots, SubmitTestProof(origin, proof, leaves, id));
            && (o == Err(BadOrigin) <==> origin == Unsigned)
            && (o == Err(XcmpNoChannelRootForChannelId) <==> origin == Signed && id !in roots)
            && (o == Err(XcmpProofNotValid) <==>
                  origin == Signed && id in roots && !Mmr.VerifyLeavesProof(roots[id], leaves, proof))
            && (o == Ok <==> origin == Signed && id in roots && Mmr.VerifyLeavesProof(roots[id], leaves, proof))
  {
  }

  /** The new storage; only block starts, root updates and accepted test proofs write. */
  function Apply(s: Storage, c: Call): Storage {
    match c
    case BlockStart(n, provided) =>
      var root := ProvidedRoot(provided);
      s.(seenBeefyRoots := s.seenBeefyRoots[root := n], seenBeefyRootsOrder := s.seenBeefyRootsOrder + [root])
    case UpdateRoot(origin, root, channelId) =>
      if origin == Signed then s.(xcmpChannelRoots := s.xcmpChannelRoots[channelId := root]) else s
    case SubmitTestProof(_, _, _, channelId) =>
      if TestProofOutcome(s.xcmpChannelRoots, c) == Ok then
        s.(events := s.events + [XcmpMessagesAccepted(s.xcmpChannelRoots[channelId], channelId)])
      else s
    case SubmitXcmpProof(_, _, _) => s
  }

  function Run(s: Storage, calls: seq<Call>): Storage {
    if calls == [] then s else Apply(Run(s, calls[..|calls| - 1]), calls[|calls| - 1])
  }

  lemma {:induction false} RunAppend(s: Storage, a: seq<Call>, b: seq<Call>)
    ensures Run(Run(s, a), b) == Run(s, a + b)
  {
    if b == [] {
      assert a + b == a;
    } else {
      RunAppend(s, a, b[..|b| - 1]);
      assert (a + b)[..|a + b| - 1] == a + b[..|b| - 1];
    }
  }

  class Pallet {
    var seenBeefyRoots: map<H256, nat>
    var seenBeefyRootsOrder: seq<H256>
    var xcmpChannelRoots: map<nat, H256>
    var events: seq<Event>

    ghost function View(): Storage
      reads this
    {
      Storage(seenBeefyRoots, seenBeefyRootsOrder, xcmpChannelRoots, events)
    }

    constructor ()
      ensures View() == EMPTY
    {
      seenBeefyRoots, seenBeefyRootsOrder, xcmpChannelRoots, events := map[], [], map[], [];
    }

    method OnInitialize(n: nat, provided: Option<H256>)
      modifies this
      ensures View() == Apply(old(View()), BlockStart(n, provided))
    {
      var beefyRoot := match provided case Some(r) => r case None => Zero;
      seenBeefyRoots := seenBeefyRoots[beefyRoot := n];
      var order := seenBeefyRootsOrder;
      order := order + [beefyRoot];
      seenBeefyRootsOrder := order;
    }

    method UpdateRoot(origin: Origin, root: H256, channelId: nat) returns (o: Outcome)
      modifies this
      ensures o == if origin == Signed then Ok else Err(BadOrigin)
      ensures View() == Apply(old(View()), Call.UpdateRoot(origin, root, channelId))
    {
      if origin != Signed {
        return Err(BadOrigin);
      }
      xcmpChannelRoots := xcmpChannelRoots[channelId := root];
      return Ok;
    }

    method SubmitTestProof(origin: Origin, proof: Mmr.MmrProof, leaves: seq<Blob>, channelId: nat)
      returns (o: Outcome)
      modifies this
      ensures o == TestProofOutcome(old(xcmpChannelRoots), Call.SubmitTestProof(origin, proof, leaves, channelId))
      ensures View() == Apply(old(View()), Call.SubmitTestProof(origin, proof, leaves, channelId))
    {
      if origin != Signed {
        return Err(BadOrigin);
      }
      if channelId !in xcmpChannelRoots {
        return Err(XcmpNoChannelRootForChannelId);
      }
      var root := xcmpChannelRoots[channelId];
      if !Mmr.VerifyLeavesProof(root, leaves, proof) {
        return Err(XcmpProofNotValid);
      }
      events := events + [XcmpMessagesAccepted(root, channelId)];
      return Ok;
    }

    /** The four-stage check; `OkIffAccepts`, `Stage1Errors`, `Stage2Errors`, `Stage3Errors`,
        `Stage4Error` and `TrapIff` say what each outcome means. */
    method SubmitXcmpProof(origin: Origin, x: XcmpProof, beefyRoot: H256) returns (o: Outcome)
      ensures o == XcmpOutcome(seenBeefyRoots.Keys, origin, x, beefyRoot)
    {
      if origin != Signed {
        return Err(BadOrigin);
      }
      if beefyRoot !in seenBeefyRoots {
        return Err(XcmpBeefyRootTargetedNeverSeen);
      }
      var (proof1, leaves1) := x.stage1;
      if !Mmr.VerifyLeavesProof(beefyRoot, leaves1, proof1) {
        return Err(XcmpStage1ProofDoesntVerify);
      }
      if |leaves1| > 1 {
        return Err(XcmpStage1LeavesTooLarge);
      }
      if |leaves1| == 0 {
        return Trap;
      }
      var leaf2 := DecodeBeefyLeaf(leaves1[0]);
      if leaf2.None? {
        return Err(XcmpStage2LeafDoesntDecode);
      }
      if leaf2.value.leafExtra != x.stage2.root {
        return Err(XcmpStage2RootDoesntMatch);
      }
      if !FitsUsize(x.stage2.numLeaves, x.stage2.leafIndex) {
        return Trap;
      }
      if !BinaryMerkle.VerifyProof(x.stage2.root, x.stage2.proof, x.stage2.numLeaves, x.stage2.leafIndex,
                                   EncodeParaLeaf(x.stage2.leaf)) {
        return Err(XcmpStage2ProofDoesntVerify);
      }
      var root3 := ExtractXcmpChannelRoot(x.stage2.leaf);
      if root3.NotExtracted? {
        return Err(root3.error);
      }
      if root3.root != x.stage3.root {
        return Err(XcmpStage3RootDoesntMatch);
      }
      if !FitsUsize(x.stage3.numLeaves, x.stage3.leafIndex) {
        return Trap;
      }
      if !BinaryMerkle.VerifyProof(x.stage3.root, x.stage3.proof, x.stage3.numLeaves, x.stage3.leafIndex,
                                   EncodeHash(x.stage3.leaf)) {
        return Err(XcmpStage3ProofDoesntVerify);
      }
      var root4 := x.stage3.leaf;
      var (proof4, leaves4) := x.stage4;
      if !Mmr.VerifyLeavesProof(root4, leaves4, proof4) {
        return Err(XcmpStage4ProofDoesntVerify);
      }
      return Ok;
    }
  }

  // ---------------------------------------------------------------- properties of all runs

  predicate StartsWithRoot(c: Call, root: H256) {
    c.BlockStart? && ProvidedRoot(c.provided) == root
  }

  /** `k` is the last block start of the run that recorded `root`. */
  predicate LastStart(calls: seq<Call>, root: H256, k: nat) {
    && k < |calls| && StartsWithRoot(calls[k], root)
    && forall j :: k < j < |calls| ==> !StartsWithRoot(calls[j], root)
  }

  function StartRoots(calls: seq<Call>): seq<H256> {
    if calls == [] then []
    else
      var last := calls[|calls| - 1];
      StartRoots(calls[..|calls| - 1]) + (if last.BlockStart? then [ProvidedRoot(last.provided)] else [])
  }

  /** On every run from the empty storage, the order list is the roots of the block starts, the
      keys of the seen map are exactly its elements, and the number stored for a root is that of
      its last block start. */
  lemma {:induction false} SeenRootsAgree(calls: seq<Call>)
    ensures var s := Run(EMPTY, calls);
            && s.seenBeefyRootsOrder == StartRoots(calls)
            && (forall r :: r in s.seenBeefyRoots <==> r in s.seenBeefyRootsOrder)
            && (forall r :: r in s.seenBeefyRoots ==>
                  exists k: nat :: LastStart(calls, r, k) && s.seenBeefyRoots[r] == calls[k].number)
  {
    if calls != [] {
      var n := |calls| - 1;
      var before, last := calls[..n], calls[n];
      SeenRootsAgree(before);
      var s, t := Run(EMPTY, before), Run(EMPTY, calls);
      forall r | r in t.seenBeefyRoots
        ensures exists k: nat :: LastStart(calls, r, k) && t.seenBeefyRoots[r] == calls[k].number
      {
        if StartsWithRoot(last, r) {
          assert LastStart(calls, r, n);
        } else {
          assert r in s.seenBeefyRoots && t.seenBeefyRoots[r] == s.seenBeefyRoots[r];
          var k: nat :| LastStart(before, r, k) && s.seenBeefyRoots[r] == before[k].number;
          assert LastStart(calls, r, k);
        }
      }
    }
  }

  lemma {:induction false} SeenRootsGrow(s: Storage, calls: seq<Call>)
    ensures s.seenBeefyRoots.Keys <= Run(s, calls).seenBeefyRoots.Keys
  {
    if calls != [] {
      SeenRootsGrow(s, calls[..|calls| - 1]);
    }
  }

  /** A proof accepted in some state is accepted after any further block starts and calls. */
  lemma {:induction false} AcceptanceIsStable(s: Storage, calls: seq<Call>, x: XcmpProof, beefyRoot: H256)
    requires Accepts(s.seenBeefyRoots.Keys, x, beefyRoot)
    ensures Accepts(Run(s, calls).seenBeefyRoots.Keys, x, beefyRoot)
  {
    SeenRootsGrow(s, calls);
  }

  /** The channel root most recently stored by a signed `update_root`, read off the calls alone. */
  function LastUpdate(calls: seq<Call>, channelId: nat): Option<H256> {
    if calls == [] then None
    else
      var last := calls[|calls| - 1];
      if last.UpdateRoot? && last.origin == Signed && last.channelId == channelId then Some(last.root)
      else LastUpdate(calls[..|calls| - 1], channelId)
  }

  /** The acceptance events a run should deposit, read off the calls alone. */
  function ExpectedEvents(calls: seq<Call>): seq<Event> {
    if calls == [] then []
    else
      var before, last := calls[..|calls| - 1], calls[|calls| - 1];
      ExpectedEvents(before)
      + if last.SubmitTestProof? && last.origin == Signed && LastUpdate(before, last.channelId).Some?
           && Mmr.VerifyLeavesProof(LastUpdate(before, last.channelId).value, last.leaves, last.proof)
        then [XcmpMessagesAccepted(LastUpdate(before, last.channelId).value, last.channelId)]
        else []
  }

  /** On every run from the empty storage, a channel root is the last one stored for its channel,
      and the acceptance events are exactly those of the submissions whose leaves verified
      against the root last stored for their channel. */
  lemma {:induction false} EventsFollowUpdates(calls: seq<Call>)
    ensures var s := Run(EMPTY, calls);
            && s.events == ExpectedEvents(calls)
            && forall ch :: LastUpdate(calls, ch)
                            == if ch in s.xcmpChannelRoots then Some(s.xcmpChannelRoots[ch]) else None
  {
    if calls != [] {
      EventsFollowUpdates(calls[..|calls| - 1]);
    }
  }

  // ---------------------------------------------------------------- soundness of acceptance

  /** With a collision-free hash an accepted submission is backed at every tier: a leaf under a
      seen Beefy root names the heads root, the para head is one of the heads under it, the
      channel root read from that head's digest has the message root as a channel, and a
      submitted leaf is a message leaf under it exactly when it is not shaped like an inner node. */
  lemma AcceptedIsBacked(seen: set<H256>, x: XcmpProof, beefyRoot: H256)
    requires Accepts(seen, x, beefyRoot)
    ensures x.stage1.1[0] in Frontier(beefyRoot)
    ensures EncodeParaLeaf(x.stage2.leaf) in Frontier(DecodeBeefyLeaf(x.stage1.1[0]).value.leafExtra)
    ensures ExtractXcmpChannelRoot(x.stage2.leaf).Extracted?
    ensures EncodeHash(x.stage3.leaf) in Frontier(ExtractXcmpChannelRoot(x.stage2.leaf).root)
    ensures forall k :: 0 <= k < |x.stage4.1| ==>
              (x.stage4.1[k] in Frontier(x.stage3.leaf) <==> !IsPair(x.stage4.1[k]))
  {
    Mmr.VerifiedLeavesAreBelowRoot(beefyRoot, x.stage1.1, x.stage1.0);
    var (p, c) := (x.stage2, x.stage3);
    BinaryMerkle.VerifiedLeafIsBelowRoot(p.root, p.proof, p.numLeaves, p.leafIndex, EncodeParaLeaf(p.leaf));
    BinaryMerkle.VerifiedLeafIsBelowRoot(c.root, c.proof, c.numLeaves, c.leafIndex, EncodeHash(c.leaf));
    Mmr.VerifiedLeavesAreBelowRoot(c.leaf, x.stage4.1, x.stage4.0);
  }
}

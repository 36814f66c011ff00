/** What the relayer's submissions inherit from the answers of the nodes. */
module RelayerAnswers {
  import opened Hashing
  import opened ProofTypes
  import opened Mmr
  import opened Relayer
  import Receiver

  /** A property of each kind of answer: message proofs by root, channel proofs by the message root
      read in the same block, head proofs, and Beefy proofs by relay block number and root. */
  datatype AnswerSpec = AnswerSpec(
    message: (H256, LeavesProof) -> bool,
    channel: (H256, ChannelMerkleProof) -> bool,
    head: ParaMerkleProof -> bool,
    beefy: (nat, H256, LeavesProof) -> bool)

  /** The answers carried by a step have the property. */
  predicate Meets(q: AnswerSpec, s: State, step: Step) {
    match step
    case RelayBeefy(_, a) => a.root.Some? && a.proof.Some? ==> q.beefy(a.number, a.root.value, a.proof.value)
    case RelayHead(_, h) => h.Some? ==> q.head(h.value)
    case ParaMessage(_, r, p) => r.Some? && p.Some? ==> q.message(r.value, p.value)
    case ParaChannel(_, c) => c.Some? && s.para.AwaitChannelProof? ==> q.channel(s.para.msgRoot, c.value)
    case _ => true
  }

  /** The bytes that decode to the given parts. */
  function Pack(parts: (MmrProof, seq<Blob>)): LeavesProof {
    LeavesProof(Encoded(parts.1), Encoded(parts.0))
  }

  predicate MapsUphold(q: AnswerSpec, m: Maps) {
    && (forall r :: r in m.messages ==> q.message(r, m.messages[r]))
    && (forall r :: r in m.channels ==> q.channel(r, m.channels[r]))
    && (forall r :: r in m.heads ==> q.head(m.heads[r]))
    && (forall k :: k in m.beefy ==> q.beefy(k.1, m.beefy[k].0, m.beefy[k].1))
  }

  predicate ParaUpholds(q: AnswerSpec, p: ParaTask) {
    p.CheckRootKnown? || p.StoreChannelProof? ==> q.channel(p.msgRoot, p.channel)
  }

  /** Every part of a submission is an answer with the property, and the message and channel
      answers belong to the same message root. */
  predicate BuiltFrom(q: AnswerSpec, sub: Submission) {
    && q.message(sub.root, Pack(sub.xcmp.stage4)) && q.channel(sub.root, sub.xcmp.stage3)
    && q.head(sub.xcmp.stage2) && q.beefy(sub.block, sub.beefyRoot, Pack(sub.xcmp.stage1))
  }

  predicate AsmUpholds(q: AnswerSpec, a: AsmTask) {
    match a
    case Idle => true
    case Picked(r, p) => q.message(r, p)
    case Matched(r, m) => q.message(r, Pack(m))
    case GotChannel(r, m, c) => q.message(r, Pack(m)) && q.channel(r, c)
    case GotHead(r, m, c, h) => q.message(r, Pack(m)) && q.channel(r, c) && q.head(h)
    case GotBeefy(sub) => BuiltFrom(q, sub)
    case Removed(sub) => BuiltFrom(q, sub)
  }

  predicate SubmissionsUphold(q: AnswerSpec, subs: seq<Submission>) {
    forall i :: 0 <= i < |subs| ==> BuiltFrom(q, subs[i])
  }

  predicate Upholds(q: AnswerSpec, s: State) {
    MapsUphold(q, s.maps) && ParaUpholds(q, s.para) && AsmUpholds(q, s.asm) && SubmissionsUphold(q, s.submitted)
  }

  lemma CollectorUpholds(lt: (H256, H256) -> bool, q: AnswerSpec, s: State, step: Step)
    requires Upholds(q, s) && Enabled(lt, s, step) && Meets(q, s, step) && !IsAsmStep(step)
    ensures Upholds(q, Apply(lt, s, step))
  {
  }

  lemma AsmTaskUpholds(lt: (H256, H256) -> bool, q: AnswerSpec, s: State, step: Step)
    requires MapsUphold(q, s.maps) && AsmUpholds(q, s.asm) && Enabled(lt, s, step) && IsAsmStep(step)
    ensures AsmUpholds(q, Apply(lt, s, step).asm)
  {
    match step
    case AsmPick(_, _) =>
    case AsmMatch(_) =>
    case AsmChannel(_) =>
    case AsmHead(_) =>
    case AsmBeefy(_, _) =>
    case AsmRemove(_) =>
    case AsmSubmit(_) =>
  }

  lemma AssemblerUpholds(lt: (H256, H256) -> bool, q: AnswerSpec, s: State, step: Step)
    requires Upholds(q, s) && Enabled(lt, s, step) && IsAsmStep(step)
    ensures Upholds(q, Apply(lt, s, step))
  {
    AssemblerOnlyRemoves(lt, s, step);
    AsmTaskUpholds(lt, q, s, step);
    SubmittedByStep(lt, s, step);
  }

  /** For any property of answers: if every answer received in a run has it, then in every state of
      the run all stored entries and every part of every submission have it. */
  lemma {:induction false} AnswersAreUpheld(
    lt: (H256, H256) -> bool, q: AnswerSpec, states: seq<State>, steps: seq<Step>, i: nat)
    requires ValidRun(lt, states, steps) && i < |states|
    requires forall j :: 0 <= j < |steps| ==> Meets(q, states[j], steps[j])
    ensures Upholds(q, states[i])
  {
    if i > 0 {
      AnswersAreUpheld(lt, q, states, steps, i - 1);
      var s, step := states[i - 1], steps[i - 1];
      if IsAsmStep(step) {
        AssemblerUpholds(lt, q, s, step);
      } else {
        CollectorUpholds(lt, q, s, step);
      }
    }
  }

  // ---------------------------------------------------------------- answers that agree per block

  predicate GoodMessage(root: H256, p: LeavesProof) {
    Decodes(p) ==> VerifyLeavesProof(root, p.leaves.value, p.proof.value)
  }

  predicate GoodChannel(root: H256, c: ChannelMerkleProof) {
    c.leaf == root && Receiver.FitsUsize(c.numLeaves, c.leafIndex) && ChannelProofVerifies(c)
  }

  predicate GoodHead(h: ParaMerkleProof) {
    Receiver.FitsUsize(h.numLeaves, h.leafIndex) && HeadProofVerifies(h)
  }

  predicate GoodBeefy(root: H256, p: LeavesProof) {
    Decodes(p) ==> |p.leaves.value| == 1 && VerifyLeavesProof(root, p.leaves.value, p.proof.value)
  }

  /** The sender's answers and the head proof verify on their own; nothing is said of Beefy proofs. */
  function LowerStages(): AnswerSpec {
    AnswerSpec((r, p) => GoodMessage(r, p), (r, c) => GoodChannel(r, c), h => GoodHead(h), (n, r, p) => true)
  }

  /** The answers a collector gets for one block agree with each other. */
  function Consistency(): AnswerSpec {
    LowerStages().(beefy := (n, r, p) => GoodBeefy(r, p))
  }

  predicate Consistent(s: State, step: Step) {
    Meets(Consistency(), s, step)
  }

  /** When the lower stages are in order, the Beefy proof alone decides. */
  lemma AcceptedIffBeefyVerifies(sub: Submission, seen: set<H256>)
    requires BuiltFrom(LowerStages(), sub) && JoinedBelow(sub.xcmp)
    ensures Receiver.Accepts(seen, sub.xcmp, sub.beefyRoot) <==>
            sub.beefyRoot in seen && GoodBeefy(sub.beefyRoot, Pack(sub.xcmp.stage1))
  {
  }

  /** Every stored proof verifies under its key. */
  predicate GoodMaps(m: Maps) {
    && (forall r :: r in m.messages ==> GoodMessage(r, m.messages[r]))
    && (forall r :: r in m.channels ==> GoodChannel(r, m.channels[r]))
    && (forall r :: r in m.heads ==> GoodHead(m.heads[r]))
    && (forall k :: k in m.beefy ==> GoodBeefy(m.beefy[k].0, m.beefy[k].1))
  }

  /** In every interleaving with consistent answers, every stored proof verifies under its key, and
      every proof ever submitted is accepted by every chain that has seen its Beefy root. */
  lemma GoodAlways(lt: (H256, H256) -> bool, states: seq<State>, steps: seq<Step>, i: nat, seen: set<H256>)
    requires ValidRun(lt, states, steps) && i < |states|
    requires forall j :: 0 <= j < |steps| ==> Consistent(states[j], steps[j])
    ensures GoodMaps(states[i].maps)
    ensures forall k :: 0 <= k < |states[i].submitted| && states[i].submitted[k].beefyRoot in seen ==>
              Receiver.Accepts(seen, states[i].submitted[k].xcmp, states[i].submitted[k].beefyRoot)
  {
    AnswersAreUpheld(lt, Consistency(), states, steps, i);
    SubmissionsJoined(lt, states, steps, i);
    forall k | 0 <= k < |states[i].submitted| && states[i].submitted[k].beefyRoot in seen
      ensures Receiver.Accepts(seen, states[i].submitted[k].xcmp, states[i].submitted[k].beefyRoot)
    {
      assert BuiltFrom(Consistency(), states[i].submitted[k]);
      AcceptedIffBeefyVerifies(states[i].submitted[k], seen);
    }
  }

  /** How many submissions prove messages under a message root. */
  function ProofsUnder(subs: seq<Submission>, r: H256): nat {
    if subs == [] then 0
    else ProofsUnder(subs[..|subs| - 1], r) + One(subs[|subs| - 1].xcmp.stage3.leaf == r)
  }

  lemma {:induction false} ProofsUnderAreSubmissionsFor(subs: seq<Submission>, r: H256)
    requires forall k :: 0 <= k < |subs| ==> subs[k].xcmp.stage3.leaf == subs[k].root
    ensures ProofsUnder(subs, r) == SubmissionsFor(subs, r)
  {
    if subs != [] {
      ProofsUnderAreSubmissionsFor(subs[..|subs| - 1], r);
    }
  }

  /** With consistent answers, the proofs submitted for the message root `r` are as many as the
      removals of `r`, less the losses and the one in flight. */
  lemma ProofsAreConserved(lt: (H256, H256) -> bool, states: seq<State>, steps: seq<Step>, i: nat, r: H256)
    requires ValidRun(lt, states, steps) && i < |states|
    requires forall j :: 0 <= j < |steps| ==> Consistent(states[j], steps[j])
    ensures var s := states[i];
            Tally(s.log, RemovedRoot, r)
            == ProofsUnder(s.submitted, r) + Tally(s.log, DroppedRoot, r) + One(InFlight(s, r))
  {
    AnswersAreUpheld(lt, Consistency(), states, steps, i);
    ConservedAlways(lt, states, steps, i, r);
    assert forall k :: 0 <= k < |states[i].submitted| ==> BuiltFrom(Consistency(), states[i].submitted[k]);
    ProofsUnderAreSubmissionsFor(states[i].submitted, r);
  }
}

/** The test-proof loop of the relayer: it keeps storing the MMR root it holds for channel 0 and
    submits the proof it holds once the chain shows that root. */
module ProofLoop {
  import opened Hashing
  import opened Receiver
  import Relayer
  import RelayerAnswers

  const CHANNEL: nat := 0

  /** How a transaction fares: it cannot be sent, it is sent but never gets into a block, or it is in a
      block. The loop goes on as after a success in both of the last two cases. */
  datatype Sending = NotSent | Lost | InBlock

  /** One pass of the loop as seen from outside: what other accounts do on the chain before the
      root is read, before the update and before the submission; which requests succeed; and the
      next root and proof, if they can be obtained. */
  datatype Turn = Turn(
    before: seq<Call>, fetched: bool, between: seq<Call>, updated: bool, after: seq<Call>,
    sending: Sending, next: Option<(H256, Relayer.LeavesProof)>)

  /** The calls do not write the root of channel 0. */
  predicate Foreign(calls: seq<Call>) {
    forall i :: 0 <= i < |calls| ==>
      !(calls[i].UpdateRoot? && calls[i].origin == Signed && calls[i].channelId == CHANNEL)
  }

  predicate ForeignTurn(t: Turn) {
    Foreign(t.before) && Foreign(t.between) && Foreign(t.after)
  }

  predicate ChainHolds(chain: Storage, root: H256) {
    CHANNEL in chain.xcmpChannelRoots && chain.xcmpChannelRoots[CHANNEL] == root
  }

  /** The root as the loop reads it: zero stands for a missing root and for a failed request. */
  function ReadRoot(chain: Storage, fetched: bool): H256 {
    if fetched && CHANNEL in chain.xcmpChannelRoots then chain.xcmpChannelRoots[CHANNEL] else Zero
  }

  /** The chain when the loop reaches the submission of this turn. */
  function AtSubmission(chain: Storage, root: H256, t: Turn): Storage {
    var read := Run(chain, t.before);
    var updating := Run(read, t.between);
    Run(if t.updated then Apply(updating, UpdateRoot(Signed, root, CHANNEL)) else updating, t.after)
  }

  predicate Submits(chain: Storage, root: H256, t: Turn) {
    ReadRoot(Run(chain, t.before), t.fetched) == root
  }

  lemma {:induction false} ForeignKeepsRoot(chain: Storage, calls: seq<Call>, root: H256)
    requires Foreign(calls)
    ensures ChainHolds(Run(chain, calls), root) <==> ChainHolds(chain, root)
  {
    if calls != [] {
      ForeignKeepsRoot(chain, calls[..|calls| - 1], root);
    }
  }

  /** For one turn that submits while nobody else writes the root of channel 0: the chain holds the
      loop's root at the submission if and only if that root is not zero, or the loop's own update
      went through in this turn, or the chain held the root when the turn began. */
  lemma SubmissionMeetsHeldRootIff(chain: Storage, root: H256, t: Turn)
    requires ForeignTurn(t) && Submits(chain, root, t)
    ensures ChainHolds(AtSubmission(chain, root, t), root) <==> root != Zero || t.updated || ChainHolds(chain, root)
  {
    var read := Run(chain, t.before);
    var updating := Run(read, t.between);
    ForeignKeepsRoot(chain, t.before, root);
    ForeignKeepsRoot(read, t.between, root);
    ForeignKeepsRoot(if t.updated then Apply(updating, UpdateRoot(Signed, root, CHANNEL)) else updating, t.after, root);
  }

  /** When no other account writes the root of channel 0, a submission always meets the root the
      loop holds, if and only if that root is not zero. */
  lemma SubmissionsMeetHeldRootIffNonZero(root: H256)
    ensures (forall chain, t :: ForeignTurn(t) && Submits(chain, root, t) ==> ChainHolds(AtSubmission(chain, root, t), root))
            <==> root != Zero
  {
    if root == Zero {
      var t := Turn([], true, [], false, [], InBlock, None);
      assert Submits(EMPTY, root, t) && !ChainHolds(AtSubmission(EMPTY, root, t), root);
    } else {
      forall chain, t | ForeignTurn(t) && Submits(chain, root, t)
        ensures ChainHolds(AtSubmission(chain, root, t), root)
      {
        SubmissionMeetsHeldRootIff(chain, root, t);
      }
    }
  }

  // ---------------------------------------------------------------- the loop over all turns

  /** What the loop holds between two turns. */
  datatype Held = Held(chain: Storage, root: H256, proof: Relayer.LeavesProof)

  /** What a turn does: the chain does not show the held root; the proof cannot be decoded or sent; the
      transaction is lost; or the pallet has decided on it. */
  datatype Attempt = Waiting | Failed | Missed(root: H256) | Tried(root: H256, outcome: Outcome)

  function ProofCall(proof: Relayer.LeavesProof): Call
    requires Relayer.Decodes(proof)
  {
    SubmitTestProof(Signed, proof.proof.value, proof.leaves.value, CHANNEL)
  }

  function AttemptOf(h: Held, t: Turn): Attempt {
    if !Submits(h.chain, h.root, t) then Waiting
    else if !Relayer.Decodes(h.proof) || t.sending.NotSent? then Failed
    else if t.sending.Lost? then Missed(h.root)
    else Tried(h.root, TestProofOutcome(AtSubmission(h.chain, h.root, t).xcmpChannelRoots, ProofCall(h.proof)))
  }

  /** After a submission the loop takes up a new root and proof, or ends when it cannot get them. */
  function Next(h: Held, t: Turn): Option<Held> {
    var chain := AtSubmission(h.chain, h.root, t);
    match AttemptOf(h, t)
    case Waiting => Some(h.(chain := chain))
    case Failed => Some(h.(chain := chain))
    case Missed(_) => if t.next.None? then None else Some(Held(chain, t.next.value.0, t.next.value.1))
    case Tried(_, _) =>
      if t.next.None? then None
      else Some(Held(Apply(chain, ProofCall(h.proof)), t.next.value.0, t.next.value.1))
  }

  /** The chain shows the held root: it is read and is the stored one, or it is zero and nothing is read. */
  predicate Shown(h: Held, t: Turn) {
    var roots := Run(h.chain, t.before).xcmpChannelRoots;
    (t.fetched && 0 in roots && roots[0] == h.root) || (h.root == Zero && (!t.fetched || 0 !in roots))
  }

  /** When a turn does which: it submits exactly when the chain shows the root and the proof can be decoded
      and sent, and the pallet decides exactly on what gets into a block. */
  lemma AttemptIff(h: Held, t: Turn)
    ensures AttemptOf(h, t).Waiting? <==> !Shown(h, t)
    ensures AttemptOf(h, t).Failed? <==> Shown(h, t) && (!Relayer.Decodes(h.proof) || t.sending == NotSent)
    ensures AttemptOf(h, t) == Missed(h.root) <==> Shown(h, t) && Relayer.Decodes(h.proof) && t.sending == Lost
    ensures AttemptOf(h, t).Tried? <==> Shown(h, t) && Relayer.Decodes(h.proof) && t.sending == InBlock
    ensures AttemptOf(h, t).Tried? ==> AttemptOf(h, t).root == h.root
  {
  }

  /** For a root other than zero, only what the chain holds counts. */
  lemma NonZeroTriedIff(h: Held, t: Turn)
    requires h.root != Zero
    ensures AttemptOf(h, t).Tried? <==>
            t.fetched && ChainHolds(Run(h.chain, t.before), h.root) && Relayer.Decodes(h.proof) && t.sending.InBlock?
  {
    AttemptIff(h, t);
  }

  /** The calls that reach the chain in a turn, in order. */
  function TurnCalls(h: Held, t: Turn): seq<Call> {
    t.before + t.between + (if t.updated then [UpdateRoot(Signed, h.root, 0)] else []) + t.after
    + if AttemptOf(h, t).Tried? then [SubmitTestProof(Signed, h.proof.proof.value, h.proof.leaves.value, 0)] else []
  }

  lemma OneCall(s: Storage, c: Call)
    ensures Run(s, [c]) == Apply(s, c)
  {
    assert [c][..0] == [];
  }

  lemma ChainAtSubmission(chain: Storage, root: H256, t: Turn)
    ensures AtSubmission(chain, root, t)
            == Run(chain, t.before + t.between + (if t.updated then [UpdateRoot(Signed, root, 0)] else []) + t.after)
  {
    var update := if t.updated then [UpdateRoot(Signed, root, 0)] else [];
    var updating := Run(Run(chain, t.before), t.between);
    RunAppend(chain, t.before, t.between);
    OneCall(updating, UpdateRoot(Signed, root, 0));
    RunAppend(chain, t.before + t.between, update);
    RunAppend(chain, t.before + t.between + update, t.after);
  }

  /** A turn is a run of the chain over its calls. The loop keeps its root and proof unless it has
      submitted; then it takes up the next ones, or ends when there are none. */
  lemma TurnIsARun(h: Held, t: Turn)
    ensures var submitted := AttemptOf(h, t).Missed? || AttemptOf(h, t).Tried?;
            && (Next(h, t).None? <==> submitted && t.next.None?)
            && (Next(h, t).Some? ==>
                  && Next(h, t).value.chain == Run(h.chain, TurnCalls(h, t))
                  && (Next(h, t).value.root, Next(h, t).value.proof)
                     == if submitted then t.next.value else (h.root, h.proof))
  {
    ChainAtSubmission(h.chain, h.root, t);
    var calls := t.before + t.between + (if t.updated then [UpdateRoot(Signed, h.root, 0)] else []) + t.after;
    if AttemptOf(h, t).Tried? {
      var call := SubmitTestProof(Signed, h.proof.proof.value, h.proof.leaves.value, 0);
      OneCall(Run(h.chain, calls), call);
      RunAppend(h.chain, calls, [call]);
    } else {
      assert TurnCalls(h, t) == calls;
    }
  }

  /** One attempt per turn until the loop ends. */
  function Attempts(h: Held, turns: seq<Turn>): seq<Attempt>
    decreases |turns|
  {
    if turns == [] then []
    else
      [AttemptOf(h, turns[0])] + (if Next(h, turns[0]).None? then [] else Attempts(Next(h, turns[0]).value, turns[1..]))
  }

  /** What the loop holds before turn `n`. */
  function HeldAt(h: Held, turns: seq<Turn>, n: nat): Held
    requires n < |Attempts(h, turns)|
    decreases n
  {
    if n == 0 then h else HeldAt(Next(h, turns[0]).value, turns[1..], n - 1)
  }

  /** Root and proof agree whenever the loop obtains them, and nobody else writes the root of channel 0. */
  predicate Undisturbed(root: H256, proof: Relayer.LeavesProof, turns: seq<Turn>) {
    && RelayerAnswers.GoodMessage(root, proof)
    && (forall i :: 0 <= i < |turns| ==> ForeignTurn(turns[i]))
    && (forall i :: 0 <= i < |turns| && turns[i].next.Some? ==>
          RelayerAnswers.GoodMessage(turns[i].next.value.0, turns[i].next.value.1))
  }

  /** An undisturbed attempt that gets into a block is accepted if and only if the chain holds the root,
      since its proof verifies under no other root. */
  lemma TriedIsAcceptedIff(h: Held, t: Turn)
    requires RelayerAnswers.GoodMessage(h.root, h.proof) && ForeignTurn(t) && AttemptOf(h, t).Tried?
    ensures AttemptOf(h, t).outcome == Ok <==> h.root != Zero || t.updated || ChainHolds(h.chain, h.root)
  {
    SubmissionMeetsHeldRootIff(h.chain, h.root, t);
  }

  /** Attempt `n` is what turn `n` does to what the loop holds then. The loop ends before the turns do only
      after a submission without a next root and proof. */
  lemma {:induction false} AttemptsFollowTurns(h: Held, turns: seq<Turn>, n: nat)
    requires n < |Attempts(h, turns)|
    ensures n < |turns| && Attempts(h, turns)[n] == AttemptOf(HeldAt(h, turns, n), turns[n])
    ensures n == |Attempts(h, turns)| - 1 < |turns| - 1 ==>
              (Attempts(h, turns)[n].Missed? || Attempts(h, turns)[n].Tried?) && turns[n].next.None?
    decreases n
  {
    if n > 0 {
      AttemptsFollowTurns(Next(h, turns[0]).value, turns[1..], n - 1);
    }
  }

  lemma {:induction false} HeldProofsAreGood(h: Held, turns: seq<Turn>, n: nat)
    requires Undisturbed(h.root, h.proof, turns) && n < |Attempts(h, turns)|
    ensures RelayerAnswers.GoodMessage(HeldAt(h, turns, n).root, HeldAt(h, turns, n).proof)
    decreases n
  {
    if n > 0 {
      var next := Next(h, turns[0]).value;
      assert Undisturbed(next.root, next.proof, turns[1..]);
      HeldProofsAreGood(next, turns[1..], n - 1);
    }
  }

  /** Undisturbed, an attempt that gets into a block is accepted if and only if the root held at that turn
      is not zero, or the update of the turn went through, or the chain held the root before; so every one
      for a non-zero root is. */
  lemma AttemptIsAcceptedIff(h: Held, turns: seq<Turn>, n: nat)
    requires Undisturbed(h.root, h.proof, turns) && n < |Attempts(h, turns)| && Attempts(h, turns)[n].Tried?
    ensures n < |turns| && Attempts(h, turns)[n].root == HeldAt(h, turns, n).root
    ensures Attempts(h, turns)[n].outcome == Ok <==>
            var g := HeldAt(h, turns, n); g.root != Zero || turns[n].updated || ChainHolds(g.chain, g.root)
  {
    AttemptsFollowTurns(h, turns, n);
    HeldProofsAreGood(h, turns, n);
    TriedIsAcceptedIff(HeldAt(h, turns, n), turns[n]);
  }

  /** A turn that keeps its root and updates the chain makes the next one succeed. */
  lemma UpdateThenAccepted(h: Held, t: Turn, t': Turn)
    requires RelayerAnswers.GoodMessage(h.root, h.proof) && Relayer.Decodes(h.proof) && h.root != Zero
    requires ForeignTurn(t) && ForeignTurn(t') && t'.fetched && t'.sending.InBlock?
    requires t.updated && (AttemptOf(h, t).Waiting? || AttemptOf(h, t).Failed?)
    ensures Next(h, t).Some? && AttemptOf(Next(h, t).value, t') == Tried(h.root, Ok)
  {
    var g := Next(h, t).value;
    var updating := Run(Run(h.chain, t.before), t.between);
    ForeignKeepsRoot(Apply(updating, UpdateRoot(Signed, h.root, CHANNEL)), t.after, h.root);
    assert ChainHolds(g.chain, h.root);
    ForeignKeepsRoot(g.chain, t'.before, h.root);
    NonZeroTriedIff(g, t');
    TriedIsAcceptedIff(g, t');
  }

  lemma {:induction false} HeldAtNext(h: Held, turns: seq<Turn>, n: nat)
    requires n < |Attempts(h, turns)| && n + 1 < |turns| && Next(HeldAt(h, turns, n), turns[n]).Some?
    ensures n + 1 < |Attempts(h, turns)| && HeldAt(h, turns, n + 1) == Next(HeldAt(h, turns, n), turns[n]).value
    decreases n
  {
    if n > 0 {
      HeldAtNext(Next(h, turns[0]).value, turns[1..], n - 1);
    } else {
      assert turns[1..] != [];
    }
  }

  /** Progress of the loop: undisturbed, if it waits at some turn while its update goes through, and fetches
      and gets into a block at the next, that one is accepted, for a root other than zero whose proof decodes. */
  lemma LoopMakesProgress(h: Held, turns: seq<Turn>, n: nat)
    requires Undisturbed(h.root, h.proof, turns) && n < |Attempts(h, turns)| && n + 1 < |turns|
    requires var g := HeldAt(h, turns, n); g.root != Zero && Relayer.Decodes(g.proof)
    requires turns[n].updated && (Attempts(h, turns)[n].Waiting? || Attempts(h, turns)[n].Failed?)
    requires turns[n + 1].fetched && turns[n + 1].sending.InBlock?
    ensures n + 1 < |Attempts(h, turns)| && Attempts(h, turns)[n + 1] == Tried(HeldAt(h, turns, n).root, Ok)
  {
    AttemptsFollowTurns(h, turns, n);
    HeldProofsAreGood(h, turns, n);
    UpdateThenAccepted(HeldAt(h, turns, n), turns[n], turns[n + 1]);
    HeldAtNext(h, turns, n);
    AttemptsFollowTurns(h, turns, n + 1);
  }

  /** The body of the loop. */
  method TakeTurn(chain0: Storage, root: H256, proof: Relayer.LeavesProof, t: Turn)
    returns (attempt: Attempt, next: Option<Held>)
    ensures attempt == AttemptOf(Held(chain0, root, proof), t)
    ensures next == Next(Held(chain0, root, proof), t)
  {
    var chain := Run(chain0, t.before);
    var onchainRoot := ReadRoot(chain, t.fetched);
    chain := Run(chain, t.between);
    if t.updated {
      chain := Apply(chain, UpdateRoot(Signed, root, CHANNEL));
    }
    chain := Run(chain, t.after);
    if onchainRoot != root {
      return Waiting, Some(Held(chain, root, proof));
    }
    if !Relayer.Decodes(proof) || t.sending.NotSent? {
      return Failed, Some(Held(chain, root, proof));
    }
    attempt := Missed(root);
    if t.sending.InBlock? {
      var call := SubmitTestProof(Signed, proof.proof.value, proof.leaves.value, CHANNEL);
      attempt := Tried(root, TestProofOutcome(chain.xcmpChannelRoots, call));
      chain := Apply(chain, call);
    }
    next := if t.next.None? then None else Some(Held(chain, t.next.value.0, t.next.value.1));
  }

  /** The loop. It makes exactly one attempt per turn until it ends; undisturbed, every attempt for a
      non-zero root that gets into a block is accepted. */
  method GetProofAndVerify(chain0: Storage, root0: H256, proof0: Relayer.LeavesProof, turns: seq<Turn>)
    returns (results: seq<Attempt>)
    ensures results == Attempts(Held(chain0, root0, proof0), turns)
    ensures Undisturbed(root0, proof0, turns) ==>
              forall k :: 0 <= k < |results| && results[k].Tried? && results[k].root != Zero ==> results[k].outcome == Ok
  {
    ghost var start := Held(chain0, root0, proof0);
    var held := Held(chain0, root0, proof0);
    results := [];
    var n := 0;
    while n < |turns|
      invariant 0 <= n <= |turns|
      invariant results + Attempts(held, turns[n..]) == Attempts(start, turns)
    {
      assert turns[n..][0] == turns[n] && turns[n..][1..] == turns[n + 1..];
      var attempt, next := TakeTurn(held.chain, held.root, held.proof, turns[n]);
      results := results + [attempt];
      if next.None? {
        break;
      }
      held, n := next.value, n + 1;
    }
    forall k | 0 <= k < |results| && Undisturbed(root0, proof0, turns) && results[k].Tried?
      ensures results[k].root != Zero ==> results[k].outcome == Ok
    {
      AttemptIsAcceptedIff(start, turns, k);
    }
  }
}

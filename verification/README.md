# Verified model of the XCMP four-tier message proof

The system passes messages from one parachain to another by a proof with four tiers: a leaf of
the relay chain's Beefy MMR names the root of the para heads tree; a head in that tree carries
the root of the sender's channel tree in its digest; a channel in that tree is the root of a
message MMR; the leaves of that MMR are the messages. This project models the three parts that
have to agree and proves what holds when they are put together:

- the **sender** (`Sender.dfy`): aggregation of outbound pages into one leaf per block and
  channel, the two channel MMRs, the channel tree and its proof generator, the MMR runtime API;
- the **relayer**: two collector tasks and one assembler over five locked maps, as a state machine in
  which every lock attempt is one step that may fail (`Relayer.dfy`), what its submissions inherit from
  the answers of the nodes (`RelayerAnswers.dfy`), when it submits and when it waits
  (`RelayerProgress.dfy`), the code whose lock regions refine the steps (`RelayerTasks.dfy`), and the
  test-proof loop (`ProofLoop.dfy`);
- the **receiver** (`Receiver.dfy`): the record of seen Beefy roots, the channel roots, the events
  and the checks of submitted proofs.

`EndToEnd.dfy` and `ParaIdentity.dfy` put them together. The main results are:

- *soundness and its limits*: on any history of the three chains and any run of the receiver, the head
  of an accepted proof is one the relay chain has committed to. If its para id is the sender's, the proof
  names a channel of the sender after some block, and those of its leaves that are not shaped like an
  inner node are exactly the ones the sender sent (`AcceptedProofsDeliverSentMessages`). Conversely, a
  leaf not shaped like an inner node is deliverable for the sender if and only if it was sent, in either
  channel, up to a block committed to under a seen Beefy root (`DeliverableIffSent`). Three things a
  caller has to check are not part of acceptance:
  - the para id of the head: accepted proofs are sound if and only if it is the sender's
    (`ParaIdDecides`); a proof with a head of another para is accepted with any leaf that para commits to
    (`CommittedLeavesAreAccepted`, `OtherParaIsAccepted`);
  - the shape of the leaves: the same three upper stages are accepted with a leaf that was never sent if
    and only if the channel holds at least two leaves (`UnsentLeafAcceptedIff`, `SoundnessIsLimited`);
  - that there are leaves at all: the same proof is accepted with none (`EmptyDeliveryIsAccepted`);
- *completeness*: under every interleaving of the relayer's tasks over honest nodes, every submission
  carries exactly the message leaf of one sender block, and a chain accepts it if and only if it has
  seen the Beefy root and that root is of the height at which the Beefy proof was generated
  (`SubmissionsAreAcceptedAndDeliver`);
- *progress*: every sender block the relay chain has committed to can be delivered
  (`EveryBlockCanBeDelivered`), the test-proof loop gets its proof accepted one turn after its update
  (`LoopMakesProgress`), all pending roots with a join can be submitted, each once (`DrainRun`), a
  root is submitted only as a join of the four maps read over time (`SubmissionsAreTimedJoins`), and the
  first pending root decides for all others (`FirstRootBlocksOthers`, `SecondRootWaits`). Heights that
  differ lose the message (`DifferentHeightsLoseMessages`);
- *at most once*: no root is submitted more often than it was collected (`SubmittedAtMostAsCollected`,
  `EachCollectionCanBeSubmitted`), so not twice when each sender block is collected once
  (`SubmittedAtMostOnce`).

## How the unseen libraries are modelled

`binary_merkle_tree`, `pallet_mmr` and the SCALE codec are libraries outside the repository.

- `Hashing.dfy`: a hash is a term that holds its preimage, so it is free of collisions. A preimage
  is a string of words and embedded hashes. As in the libraries, nothing separates a leaf from an
  inner node. `Frontier` reads a root back into the leaf contents below it.
- `BinaryMerkle.dfy`: layers with promotion of an odd last node; the verifier folds the proof items
  into the leaf hash with a position and a width. Complete for every list and index, sound for
  membership, and the root determines the leaves.
- `Mmr.dfy`: perfect trees bagged from the right, proofs for any set of leaves at once. A proof with
  a repeated leaf index is rejected. Complete, sound for membership, and the root determines the
  whole history.
- `Codec.dfy`: encodings as strings of words and hashes; a string decodes to a value if and only if it
  begins with the encoding of that value. The extraction of the channel root from a digest, also a library
  function, takes the first log that carries a root, wherever it stands.

Because leaves and inner nodes are not separated, a submitted leaf is a message leaf exactly when
its content is not shaped like an inner node (`Mmr.VerifiedLeavesAreBelowRoot`,
`Receiver.AcceptedIsBacked`, `EndToEnd.DeliversSentMessages`), and inner nodes exist exactly from two
leaves on (`Mmr.NonLeafVerifiesIff`). The leaves of stages 1 to 3 are never shaped like that, because
they decode or are encoded as something else.

## Assumptions that the theorems state

- `RelayerAnswers.GoodAlways` and what follows from it assume that the answers for one block agree with
  each other (`RelayerAnswers.Consistent`). `Relayer.AcceptedIffStagesVerify` makes no such assumption.
- `EndToEnd.ServedBy` says that every answer is what an honest node serves. The relay root is requested at
  the best block and its proof at the loop block, so the root may be of any height; nothing is assumed of
  the header number, which the collector only logs. What this means for acceptance is derived
  (`EndToEnd.ServedAnswersAreConsistent`, `EndToEnd.LoggedMismatchDecides`).
- The MMR library is outside the repository, so two points are choices of the model: a proof with a
  repeated leaf index is rejected, and a proof for no leaves verifies when its one item is the root
  (`Mmr.EmptyClaimVerifies`). The acceptance without leaves and the trap on an empty stage-1 leaf list
  (`Receiver.TrapReachableIff`) rest on the second.
- The delivery of sent messages is concluded for heads whose para id is the sender's. The receiver does
  not compare it; `ParaIdentity.ParaIdDecides` shows that the condition is exact.
- A header of the sender carries the channel tree root of its own block, Beefy leaves name heads roots
  of the relay chain, and the receiver is given Beefy roots of the relay chain (`EndToEnd.Honest`,
  `EndToEnd.RootsFromRelay`). `EndToEnd.HonestWorldsExist` shows that these hold together for every
  sender history.
- The key order of the maps is any relation `lt`; `FirstRootBlocksOthers` asks that it be asymmetric, and
  `DrainRun` that it be a total order.
- `DeliverableIffSent` assumes that each list of para heads fits a 32-bit `usize`.
- `SubmittedAtMostOnce` assumes that each sender block is collected at most once.

Panics of the receiver (an empty stage-1 leaf list, sizes beyond a 32-bit `usize`) are not assumed
away: they are the outcome `Trap`.

## Where the code and its own documentation differ

- The repository's README writes `submit_xcmp_proof(proof, channel_id)`; the code takes the targeted
  Beefy root instead of a channel id. The model follows the code.
- The relayer's `test_decode` expects a zero root from an empty digest; `extract_xcmp_channel_root`
  returns an error for it. The model follows the function.

## Model

The lock regions of `RelayerTasks.RelayerNode` and the lemmas on single outcomes in `Receiver` are
covered by the rows of `Record` and `SubmitXcmpProof`.

| member | source | states |
|---|---|---|
| Hashing.FrontierIsNonPairNodes | pallets/xcmp_message_stuffer/src/lib.rs:231-238 | The leaf contents below a root are exactly the contents of the nodes below it that are not inner nodes |
| BinaryMerkle.ClimbReachesRoot | pallets/xcmp_message_stuffer/src/lib.rs:267-273 | The folding verifier reaches the root although its position and width fall behind once a node has moved up unchanged |
| BinaryMerkle.ProofsVerify | pallets/xcmp_message_stuffer/src/lib.rs:267-273 | Every generated proof verifies, for any list of leaves and any index |
| BinaryMerkle.VerifiedLeafIsBelowRoot | pallets/xcmp_message_stuffer/src/lib.rs:292-298 | Whatever sizes, positions and items are supplied, a verified leaf is below the root if and only if it is not shaped like an inner node |
| BinaryMerkle.RootReadsBack | runtime/src/lib.rs:504-506 | Reading a root back gives the leaves it was built from |
| BinaryMerkle.ProvableIffMember | runtime/src/lib.rs:517-520 | A leaf has an accepted proof under an honest root if and only if it is one of the leaves |
| Mmr.ProofsVerify | runtime/src/lib.rs:789-799 | A proof generated for any set of leaves verifies under the root of the same leaves |
| Mmr.VerifiedLeavesAreBelowRoot | pallets/xcmp_message_stuffer/src/lib.rs:314-320 | Whatever leaf count, positions and items are supplied, each verified leaf is the content of a node below the root, and of a leaf if and only if it is not shaped like an inner node |
| Mmr.MmrRootReadsBack | runtime/src/lib.rs:770-776 | The contents below an MMR root are exactly the leaves of the MMR |
| Mmr.MmrRootInjective | runtime/src/lib.rs:503 | Two leaf histories with the same root are equal |
| Mmr.ProvableIffMember | pallets/xcmp_message_stuffer/src/lib.rs:320 | A leaf has an accepted proof under an honest root if and only if it is one of the leaves |
| Mmr.VerifiesAtTrueCountIff | pallets/xcmp_message_stuffer/src/lib.rs:314-320 | Under an honest root and the true leaf count, verification accepts the leaves at the given positions with the generated items and nothing else |
| Mmr.InnerNodeContentVerifies | pallets/xcmp_message_stuffer/src/lib.rs:314-320 | Why the condition on the shape of a leaf is needed: under the root of any two or more leaves, the content of the root node verifies as a leaf |
| Mmr.NonLeafVerifiesIff | pallets/xcmp_message_stuffer/src/lib.rs:314-320 | A claim that is no leaf has a proof that verifies if and only if there are at least two leaves |
| Mmr.EmptyClaimVerifies | pallets/xcmp_message_stuffer/src/lib.rs:314-320 | A proof for no leaves verifies under any root |
| Codec.HeaderRoundTrip | pallets/xcmp_message_stuffer/src/lib.rs:346-348 | Decoding an encoded header gives the header |
| Codec.DecodeHeaderIff | pallets/xcmp_message_stuffer/src/lib.rs:346-348 | A string decodes to a header if and only if it begins with the encoding of that header |
| Codec.DecodeBeefyLeafIff | pallets/xcmp_message_stuffer/src/lib.rs:253-257 | The same for Beefy leaves |
| Codec.ExtractsFirstRoot | pallets/xcmp_message_stuffer/src/lib.rs:353 | The extracted root is the one in the first log that carries a root, wherever it stands in the digest |
| Codec.EncodeParaLeafInjective | pallets/xcmp_message_stuffer/src/lib.rs:272 | The encoded para leaf determines the para id and the head data |
| Codec.EncodeMessageLeafInjective | pallets/xcmp_message_stuffer/src/lib.rs:369-373 | The encoded message leaf determines the messages and the parent block |
| Sender.GetXcmpMessages | runtime/src/lib.rs:482-495 | The loop returns the aggregate, and yields no value if and only if all 65536 page indices are taken |
| Sender.AggregateOfNoPages | runtime/src/lib.rs:488-492 | Without a first page the aggregate is the bytes 1, 2, 3 |
| Sender.AggregateExtends | runtime/src/lib.rs:489-492 | A page put at the end of the run goes to the end of the aggregate; with the row above and the next one this determines every aggregate |
| Sender.AggregateDependsOnRunOnly | runtime/src/lib.rs:482-495 | The aggregate depends on no page of another para and on no page past the first gap |
| Sender.LeafCarriesOwnPara | pallets/xcmp_message_stuffer/src/lib.rs:378-386 | The leaf of a channel carries the aggregate of the channel's own para, whatever pages other paras have, with version 0 and the parent of the block |
| Sender.SenderRuntime.OnInitialize | pallets/xcmp_message_stuffer/src/lib.rs:378-386 | A block start adds to channel A the leaf for para 1 and to channel B the leaf for para 2, and one event each, or nothing when an aggregation overflows |
| Sender.SenderRuntime.constructor | runtime/src/lib.rs:627-630 | Both channels start empty |
| Sender.ProduceExtends | pallets/xcmp_message_stuffer/src/lib.rs:375-387 | The state after one more block is the block start applied to the state before |
| Sender.LeavesFollowBlocks | pallets/xcmp_message_stuffer/src/lib.rs:375-387 | Over any run of blocks, leaf i of channel A is the aggregate for para 1 at block i with that block's parent, and leaf i of channel B the one for para 2 |
| Sender.EventsFollowBlocks | pallets/xcmp_message_stuffer/src/lib.rs:380 | Over any run, block i deposits one event per channel with the hash of the encoded aggregate and the number of the parent |
| Sender.ChannelRootPinsHistory | runtime/src/lib.rs:553-595 | Equal channel roots mean equal message histories, block by block |
| Sender.ChannelRootsNeverRepeat | runtime/src/lib.rs:553-595 | No two heights of a run share an MMR root in either channel |
| Sender.ChannelTreeAgreement | runtime/src/lib.rs:501-529 | For any list of channel roots and any index, the generated proof carries the digest root, the stage-3 check accepts it, and nothing but a channel root verifies under that root |
| Sender.VerifiedChannelIsMember | pallets/xcmp_message_stuffer/src/lib.rs:292-303 | A leaf that passes the stage-3 check under the digest root is one of the channel roots |
| Sender.DigestHoldsBothChannels | runtime/src/lib.rs:503-506 | A channel proof for a leaf verifies under the digest root if and only if the leaf is the message root for para 1 or for para 2 |
| Sender.ServedChannelIsFirst | runtime/src/lib.rs:514-529 | Whatever channel id is asked for, the served proof is that of the channel for para 1, and verifies under the digest root |
| Sender.GeneratedFromVerifies | runtime/src/lib.rs:782-816 | A proof is served exactly for block numbers within the requested height, and verifies against the root of that height |
| Sender.RootApiServes | runtime/src/lib.rs:770-776 | Root 0 is that of the messages for para 1 and root 1 that for para 2; any other id fails |
| Sender.ProofApiServesIff | runtime/src/lib.rs:782-816 | Proofs are served for ids 0 and 1 and distinct blocks up to the requested height, and for nothing else |
| Sender.ApiRoundTrip | runtime/src/lib.rs:782-836 | The served leaves are the message leaves of the requested blocks of that channel and verify statelessly against the root reported at the requested height |
| Sender.StatelessVerificationIsExact | runtime/src/lib.rs:828-836 | Under an honest root a leaf has a served verification if and only if it is one of the leaves; otherwise every answer is the verification error |
| Receiver.ExtractionReadsHeader | pallets/xcmp_message_stuffer/src/lib.rs:344-357 | Extraction gives the channel root a header was built with, or the extraction error when it has none |
| Receiver.ExtractionIsExact | pallets/xcmp_message_stuffer/src/lib.rs:344-357 | Extraction yields a root if and only if the head data begins with a header whose first log to carry a root carries that one, and reports an undecodable header if and only if there is none |
| Receiver.Pallet.constructor | pallets/xcmp_message_stuffer/src/lib.rs:90-100 | All storage starts empty |
| Receiver.Pallet.OnInitialize | pallets/xcmp_message_stuffer/src/lib.rs:136-148 | Records the provided Beefy root, or zero, with the block number, and appends it to the order list |
| Receiver.Pallet.UpdateRoot | pallets/xcmp_message_stuffer/src/lib.rs:200-209 | A signed call stores the channel root; any other is refused and changes nothing |
| Receiver.Pallet.SubmitTestProof | pallets/xcmp_message_stuffer/src/lib.rs:156-194 | The outcome in every case, each tied to the first check to fail by `TestProofOutcomes`, and an event exactly when the leaves verify against the stored root |
| Receiver.Pallet.SubmitXcmpProof | pallets/xcmp_message_stuffer/src/lib.rs:215-336 | For every input the outcome is that of the first check to fail, accepted if and only if signed and all stages pass; each error and the trap is characterised on its own by `OkIffAccepts`, `Stage1Errors` to `Stage4Error` and `TrapIff` |
| Receiver.TrapReachableIff | pallets/xcmp_message_stuffer/src/lib.rs:245-250 | Some signed call for a Beefy root traps if and only if the root has been seen |
| Receiver.SeenRootsAgree | pallets/xcmp_message_stuffer/src/lib.rs:136-148 | On every run the order list is the roots of the block starts, the seen keys are its elements, and the stored number is that of the last start with the root |
| Receiver.SeenRootsGrow | pallets/xcmp_message_stuffer/src/lib.rs:136-148 | No call removes a seen root |
| Receiver.AcceptanceIsStable | pallets/xcmp_message_stuffer/src/lib.rs:215-336 | A proof accepted in some state is accepted after any further block starts and calls |
| Receiver.EventsFollowUpdates | pallets/xcmp_message_stuffer/src/lib.rs:156-209 | On every run the events are exactly those of submissions whose leaves verified against the root last stored for their channel |
| Receiver.AcceptedIsBacked | pallets/xcmp_message_stuffer/src/lib.rs:224-320 | An accepted proof is backed at every tier, from a seen Beefy root down to the message root; a submitted leaf is a message leaf if and only if it is not shaped like an inner node |
| Relayer.CollectorsOnlyAdd | xcmp_relayer/src/main.rs:294-473 | Collector steps remove no key from any map and leave the assembler alone |
| Relayer.AssemblerOnlyRemoves | xcmp_relayer/src/main.rs:490-610 | Assembler steps change no map except for removing the held root |
| Relayer.BusyWritesNothing | xcmp_relayer/src/main.rs:294-610 | A step that meets a busy lock writes no map, and an attempt of the assembler is given up |
| Relayer.RelayGoesOn | xcmp_relayer/src/main.rs:226-354 | The relay collector gives up exactly on a missing answer, on Beefy leaves whose first does not decode, or on a head without a non-zero channel root; a busy lock or a wrong header number is no reason |
| Relayer.ParaGoesOn | xcmp_relayer/src/main.rs:401-473 | The parachain collector gives up exactly on a missing answer and stores a channel proof exactly when its leaf is pending |
| Relayer.EndedForever | xcmp_relayer/src/main.rs:222-479 | In every run a collector that has given up never writes again |
| Relayer.JoinKeysAlways | xcmp_relayer/src/main.rs:275-354 | In every state of every interleaving, with any answers, the join keys are right and what the assembler holds is chained and present |
| Relayer.AcceptedIffStagesVerify | xcmp_relayer/src/main.rs:632-641 | With any answers, no submission names a wrong root: it is accepted if and only if each stage verifies on its own |
| Relayer.OnlyBusyLocksFail | xcmp_relayer/src/main.rs:538-610 | Past the membership check, the channel lookup and the removal fail on a busy lock and for no other reason |
| Relayer.HeldRootStaysPending | xcmp_relayer/src/main.rs:490-610 | The picked root stays the same and stays pending until the attempt removes it |
| Relayer.ConservedAlways | xcmp_relayer/src/main.rs:404-641 | In every state and for every root: insertions are pending or removed; removals are submissions in the list made for that root, losses, or the one in flight |
| Relayer.SubmittedAtMostAsCollected | xcmp_relayer/src/main.rs:404-641 | With any answers, no root is submitted more often than it was collected |
| Relayer.StoredChannelsWereCollected | xcmp_relayer/src/main.rs:444-473 | Every stored channel proof is for a message root that was collected |
| Relayer.SubmissionsJoined | xcmp_relayer/src/main.rs:490-637 | With any answers, stage 1 of every submission names the root of stage 2, and stage 2 that of stage 3 |
| RelayerAnswers.AnswersAreUpheld | xcmp_relayer/src/main.rs:222-644 | For any property of answers: if all answers of a run have it, so do all stored entries and all parts of all submissions, in every state |
| RelayerAnswers.AcceptedIffBeefyVerifies | xcmp_relayer/src/main.rs:632-637 | When the lower stages are in order, a submission is accepted if and only if its Beefy root is seen and its Beefy proof verifies |
| RelayerAnswers.GoodAlways | xcmp_relayer/src/main.rs:401-644 | With consistent answers, in every interleaving each stored proof verifies under its key, and every submission is accepted by every chain that has seen its Beefy root |
| RelayerAnswers.ProofsAreConserved | xcmp_relayer/src/main.rs:404-641 | With consistent answers, the submitted proofs whose channel leaf is a root are as many as the removals of that root, less the losses and the one in flight |
| RelayerProgress.JoinIsUnique | xcmp_relayer/src/main.rs:538-591 | The maps determine the join at a message root |
| RelayerProgress.JoinUsesGreatestBlock | xcmp_relayer/src/main.rs:568-591 | A join uses the greatest relay block number filed for its heads root |
| RelayerProgress.NoBeefyNoJoin | xcmp_relayer/src/main.rs:568-596 | Only the latest Beefy entry counts: if it does not decode there is no join, even when an older one decodes |
| RelayerProgress.SubmissionsAreTimedJoins | xcmp_relayer/src/main.rs:490-641 | With any answers and any interleaving, each submission is a join whose four parts were stored at successive moments since the assembler was last idle |
| RelayerProgress.FirstRootBlocksOthers | xcmp_relayer/src/main.rs:490-610 | While no join can be read at the first pending root, nothing is removed or submitted, whatever other roots are complete |
| RelayerProgress.JoinNeedsEveryPart | xcmp_relayer/src/main.rs:490-596 | A join cannot be read while the message does not decode, the channel proof is missing, no head is filed under the channel tree root, or no Beefy proof of such a head decodes |
| RelayerProgress.SecondRootWaits | xcmp_relayer/src/main.rs:490-530 | There is a run in which a complete root waits behind a first root without a channel proof, and an attempt of the assembler changes nothing |
| RelayerProgress.AssembleRun | xcmp_relayer/src/main.rs:490-641 | From any reachable state whose first pending root has a join, seven steps submit exactly that join |
| RelayerProgress.DrainRun | xcmp_relayer/src/main.rs:483-644 | If every pending root has a join, steps of the assembler alone leave nothing pending and submit the join of each pending root exactly once and nothing else |
| RelayerProgress.EachCollectionCanBeSubmitted | xcmp_relayer/src/main.rs:404-641 | The bound by collections is reached: a root collected any number of times can be submitted as often |
| RelayerProgress.DeliveryRun | xcmp_relayer/src/main.rs:222-644 | Answers that belong together are collected, joined and submitted from the empty maps |
| RelayerTasks.SelectLatest | xcmp_relayer/src/main.rs:568-591 | Filtering the ordered map and taking the last entry selects the greatest relay block number filed for the heads root |
| RelayerTasks.RelayerNode.constructor | xcmp_relayer/src/main.rs:189-196 | All maps start empty; the recorded run is empty |
| RelayerTasks.RelayerNode.NodeIsKeyed | xcmp_relayer/src/main.rs:275-354 | Whatever a node goes through, its join keys are right and its assembler holds chained values |
| RelayerTasks.RelayerNode.NodeConserves | xcmp_relayer/src/main.rs:404-641 | In a node, every insertion of a message root is pending or was removed once, and every removal is a submission, a loss on a node error, or in flight |
| RelayerTasks.RelayerNode.NodeSubmitsAcceptable | xcmp_relayer/src/main.rs:483-644 | If all answers to a node were consistent, its stored proofs verify and its submissions are accepted once their Beefy root is seen |
| RelayerTasks.RelayerNode.Record | xcmp_relayer/src/main.rs:222-644 | Each lock region of the tasks, from `CollectBeefy` to `Submit`, takes exactly the step of the state machine that it records, so whatever a node goes through is a run |
| RelayerTasks.RelayerNode.FollowRoots | xcmp_relayer/src/main.rs:538-596 | The three lookups by root gather the join at the root if and only if it exists |
| RelayerTasks.RelayerNode.GatherProof | xcmp_relayer/src/main.rs:490-596 | Without interference and with free locks, the lookups gather the join at the first pending root if and only if it exists, and change no map |
| RelayerTasks.RelayerNode.GenerateXcmpProof | xcmp_relayer/src/main.rs:483-644 | Without interference, an attempt consumes the first pending root and holds its join if and only if the join exists; otherwise it changes nothing |
| ProofLoop.ForeignKeepsRoot | pallets/xcmp_message_stuffer/src/lib.rs:200-209 | Calls that are no signed update of channel 0 leave its root as it is |
| ProofLoop.SubmissionMeetsHeldRootIff | xcmp_relayer/src/main.rs:745-768 | For one turn that submits, as the only writer: the chain holds the root of the loop if and only if that root is not zero, or the update of this turn went through, or the chain held it before |
| ProofLoop.SubmissionsMeetHeldRootIffNonZero | xcmp_relayer/src/main.rs:745-768 | As the only writer of channel 0, the loop submits only while the chain holds its root, if and only if that root is not zero |
| ProofLoop.AttemptIff | xcmp_relayer/src/main.rs:745-776 | A turn submits if and only if the chain shows the held root and the proof can be decoded and sent; zero also counts as shown when nothing is read |
| ProofLoop.NonZeroTriedIff | xcmp_relayer/src/main.rs:765-768 | For a root other than zero the pallet decides if and only if the root is fetched, the chain holds it, the proof decodes and the transaction gets into a block |
| ProofLoop.TurnIsARun | xcmp_relayer/src/main.rs:745-776 | A turn is a run of the chain over the calls of the others, the update and the submission in order; the loop keeps its root and proof unless it has submitted |
| ProofLoop.AttemptsFollowTurns | xcmp_relayer/src/main.rs:738-788 | The loop makes one attempt per turn, which is what that turn does to what it holds then; it ends early only after a submission without a next root and proof, also when the transaction never got into a block |
| ProofLoop.AttemptIsAcceptedIff | xcmp_relayer/src/main.rs:745-788 | When root and proof agree and nobody else writes channel 0, an attempt in a block is accepted if and only if its root is not zero, or the update of that turn went through, or the chain held the root before |
| ProofLoop.LoopMakesProgress | xcmp_relayer/src/main.rs:738-788 | Undisturbed, a turn that waits while its update goes through, followed by one that fetches and gets into a block, gives an accepted submission of the held non-zero root |
| ProofLoop.GetProofAndVerify | xcmp_relayer/src/main.rs:727-788 | The loop makes exactly the attempts above, one per turn; undisturbed, every one for a non-zero root that gets into a block is accepted |
| EndToEnd.SeenRootsAreRelayRoots | pallets/xcmp_message_stuffer/src/lib.rs:136-148 | A seen root is zero or a Beefy root of the relay chain |
| EndToEnd.AcceptedHeadIsCommitted | pallets/xcmp_message_stuffer/src/lib.rs:224-278 | The head of an accepted proof, of whatever para, is one that the relay chain has committed to up to the height of the targeted Beefy root |
| EndToEnd.AcceptedHeadIsSenderHead | pallets/xcmp_message_stuffer/src/lib.rs:250-290 | If its para is the sender's, it is the header of a sender block and the proof names the digest root of that block |
| EndToEnd.AcceptedProofsDeliverSentMessages | pallets/xcmp_message_stuffer/src/lib.rs:215-336 | On any history and any receiver run, the head of an accepted proof is committed; if its para id is the sender's, the proof names one of its channels after some block, and its leaves not shaped like an inner node are exactly those the sender sent in that channel up to then |
| ParaIdentity.CommittedLeavesAreAccepted | pallets/xcmp_message_stuffer/src/lib.rs:250-320 | For every committed head of every para, every channel of the tree its digest names and every choice of leaves of that channel, a proof with that head and these leaves is accepted |
| ParaIdentity.OtherParaIsAccepted | pallets/xcmp_message_stuffer/src/lib.rs:250-320 | For every honest history, every other para and every leaf content, an honest history with the same sender blocks has an accepted proof with a head of that para and exactly that leaf |
| ParaIdentity.ParaIdDecides | pallets/xcmp_message_stuffer/src/lib.rs:250-320 | Whatever the sender produced, accepted proofs with a head of a para deliver what the sender sent if and only if that para is the sender's |
| ParaIdentity.DeliverableIffSent | pallets/xcmp_message_stuffer/src/lib.rs:215-336 | On any honest history and receiver run, a leaf not shaped like an inner node is deliverable for the sender if and only if it was sent, in either channel, up to a block committed to under a seen Beefy root |
| EndToEnd.RootContentIsAccepted | pallets/xcmp_message_stuffer/src/lib.rs:310-320 | Under a channel of two or more leaves, the content of the channel's root node is accepted as a stage-4 leaf |
| EndToEnd.UnsentLeafAcceptedIff | pallets/xcmp_message_stuffer/src/lib.rs:310-320 | What passes three stages for a channel is accepted with some leaf never sent, for a suitable stage 4, if and only if the channel holds at least two leaves |
| EndToEnd.EmptyDeliveryIsAccepted | pallets/xcmp_message_stuffer/src/lib.rs:310-320 | What passes three stages is accepted with no leaf at all |
| EndToEnd.SoundnessIsLimited | pallets/xcmp_message_stuffer/src/lib.rs:215-336 | Any accepted proof is accepted without leaves; for one of the sender's para, all leaves were sent if and only if none is shaped like an inner node, and some unsent leaf is accepted under the same stages if and only if the channel holds at least two leaves |
| EndToEnd.BeefyProofVerifiesIffSameHeight | xcmp_relayer/src/main.rs:229-272 | A Beefy proof generated at one height verifies under the root of another if and only if the heights are the same |
| EndToEnd.LoggedMismatchDecides | xcmp_relayer/src/main.rs:257-263 | When root and header are of one block, the comparison that is only logged decides whether the filed entry can be accepted |
| EndToEnd.MessageAnswerIsGood | xcmp_relayer/src/main.rs:401-402 | What the sender serves for a block is a verifying proof of exactly the message leaf of that block |
| EndToEnd.ServedAnswersAreConsistent | xcmp_relayer/src/main.rs:229-432 | What honest nodes serve is in order below the Beefy stage, and consistent if and only if a Beefy root is that of the block its proof was requested for |
| EndToEnd.SubmissionsAreAcceptedAndDeliver | xcmp_relayer/src/main.rs:483-644 | In every interleaving over honest nodes, every submission carries exactly the message leaf of one sender block under the roots of that block, and a chain accepts it if and only if it has seen the Beefy root and that root is of the height of the Beefy proof |
| EndToEnd.SubmittedAtMostOnce | xcmp_relayer/src/main.rs:401-641 | In every interleaving over honest nodes that collects each sender block at most once, no message root is submitted twice |
| EndToEnd.EveryBlockCanBeDelivered | xcmp_relayer/src/main.rs:222-644 | For every sender block the relay chain has committed to and every height of the relay root, some run submits one proof carrying that block, accepted once its root is seen if and only if the heights agree |
| EndToEnd.HonestWorldsExist | xcmp_relayer/src/main.rs:222-644 | The assumptions of the end-to-end theorems hold together for every sender history, with every block included by the relay chain and any other logs around the one with the channel root |
| EndToEnd.DifferentHeightsLoseMessages | xcmp_relayer/src/main.rs:229-272 | For every sender history of two or more blocks, some run over an honest world consumes a message root and submits a proof that no chain accepts |

## Left out

- RPC and subxt clients, endpoints, signing, transaction watching, logging and sleeping: node answers and successes are parameters of the steps.
- Keccak, Blake2 and SCALE at the level of bytes: the symbolic hash and the token strings stand for them.
- Mmr: the order in which the library lists proof items is not modelled; proofs are read in the order of the tree.
- Sender.GetXcmpMessages: does not model what a build without overflow checks does after the 16-bit counter wraps; the result is then no value.
- A bound by `MaxBeefyRootsKept`: the code appends without pruning, so there is none.
- Processing of accepted messages and the choice of the channel by id in `gen_merkle_proof`: marked as unfinished in the code.
- `MmrApi::verify_proof`, which decodes leaves as those of the first channel only: the stateless form is modelled.
- `do_mean`, the `log_all_*` tasks, `try_generate_mmr_proof`, the `From` and `Clone` conversions: easy or unused.
- `pallets/template`, `node/`, XCM configuration, weights, fees, genesis and build scripts: wiring over libraries outside the repository.
- Aliasing of the locks themselves: a lock is a flag on each step, so deadlock is not modelled; the one blocking `lock()` in the assembler only prints.

/** The relayer as a concurrent state machine: two collector tasks and one assembler task that
    share five locked maps. Every attempt to take a lock is one atomic step and may find the
    lock busy; between any two steps of one task the other tasks may take any number of steps. */
module Relayer {
  import opened Hashing
  import opened Codec
  import opened ProofTypes
  import opened Mmr
  import Receiver

  /** Bytes received from a node: they decode to a value, or they do not decode. */
  datatype Encoded<+T> = Encoded(value: T) | Garbled

  datatype LeavesProof = LeavesProof(leaves: Encoded<seq<Blob>>, proof: Encoded<MmrProof>)

  type BeefyMap = map<(H256, nat), (H256, LeavesProof)>

  // ---------------------------------------------------------------- task positions

  datatype RelayTask = AwaitRelayBlock | AwaitHeadProof(number: nat) | RelayEnded

  datatype ParaTask =
    | AwaitParaBlock
    | AwaitChannelProof(msgRoot: H256)
    | CheckRootKnown(msgRoot: H256, channel: ChannelMerkleProof)
    | StoreChannelProof(msgRoot: H256, channel: ChannelMerkleProof)
    | ParaEnded

  /** The values the assembler has gathered so far. */
  datatype AsmTask =
    | Idle
    | Picked(root: H256, picked: LeavesProof)
    | Matched(root: H256, stage4: (MmrProof, seq<Blob>))
    | GotChannel(root: H256, stage4: (MmrProof, seq<Blob>), channel: ChannelMerkleProof)
    | GotHead(root: H256, stage4: (MmrProof, seq<Blob>), channel: ChannelMerkleProof, head: ParaMerkleProof)
    | GotBeefy(sub: Submission)
    | Removed(sub: Submission)

  /** A proof with the Beefy root it targets, the message root it was assembled for and the relay
      block number of the Beefy entry it uses. Only the proof and the Beefy root are sent. */
  datatype Submission = Submission(root: H256, block: nat, xcmp: XcmpProof, beefyRoot: H256)

  /** What happened to a message root: filed as new, taken out, or lost after being taken out. */
  datatype Kind = InsertedRoot | RemovedRoot | DroppedRoot

  datatype Entry = Entry(kind: Kind, root: H256)

  /** The shared maps. */
  datatype Maps = Maps(
    beefy: BeefyMap,
    heads: map<H256, ParaMerkleProof>,
    messages: map<H256, LeavesProof>,
    channels: map<H256, ChannelMerkleProof>,
    channelRoots: map<H256, ChannelMerkleProof>)

  datatype State = State(
    maps: Maps,
    relay: RelayTask,
    para: ParaTask,
    asm: AsmTask,
    submitted: seq<Submission>,
    log: seq<Entry>)

  const INITIAL :=
    State(Maps(map[], map[], map[], map[], map[]), AwaitRelayBlock, AwaitParaBlock, Idle, [], [])

  // ---------------------------------------------------------------- steps

  /** The answers for relay block `number`: the MMR root and the header number, both requested at the
      best block of the moment, and the MMR proof, requested at block `number`. A header number other
      than `number` is only logged. */
  datatype RelayAnswer = RelayAnswer(
    number: nat, root: Option<H256>, header: Option<nat>, proof: Option<LeavesProof>)

  /** A step of a collector carries the answers of the node; `busy` says that the lock attempt failed. */
  datatype Step =
    | RelayBeefy(busy: bool, answer: RelayAnswer)
    | RelayHead(busy: bool, head: Option<ParaMerkleProof>)
    | RelayStop
    | ParaMessage(busy: bool, msgRoot: Option<H256>, msgProof: Option<LeavesProof>)
    | ParaChannel(busy: bool, channel: Option<ChannelMerkleProof>)
    | ParaCheck(busy: bool)
    | ParaStore(busy: bool)
    | ParaStop
    | AsmPick(busy: bool, first: H256)
    | AsmMatch(busy: bool)
    | AsmChannel(busy: bool)
    | AsmHead(busy: bool)
    | AsmBeefy(busy: bool, latest: Option<nat>)
    | AsmRemove(busy: bool)
    | AsmSubmit(sent: bool)

  /** The heads root named by the first leaf of a Beefy proof. */
  function LeafExtraOf(p: LeavesProof): Option<H256> {
    if p.leaves.Garbled? || p.leaves.value == [] then None
    else
      var leaf := DecodeBeefyLeaf(p.leaves.value[0]);
      if leaf.None? then None else Some(leaf.value.leafExtra)
  }

  /** The key under which the relay collector files a head proof; it gives up on a zero root. */
  function HeadKey(head: Option<ParaMerkleProof>): Option<H256> {
    if head.None? then None
    else
      var root := Receiver.ExtractXcmpChannelRoot(head.value.leaf);
      if root.NotExtracted? || root.root == Zero then None else Some(root.root)
  }

  // The relay collector.

  function FileBeefy(beefy: BeefyMap, busy: bool, a: RelayAnswer): BeefyMap {
    if busy || a.root.None? || a.proof.None? || LeafExtraOf(a.proof.value).None? then beefy
    else beefy[(LeafExtraOf(a.proof.value).value, a.number) := (a.root.value, a.proof.value)]
  }

  function FileHead(heads: map<H256, ParaMerkleProof>, busy: bool, head: Option<ParaMerkleProof>)
    : map<H256, ParaMerkleProof>
  {
    if busy || HeadKey(head).None? then heads else heads[HeadKey(head).value := head.value]
  }

  function ApplyRelayBeefy(s: State, busy: bool, a: RelayAnswer): State {
    if a.root.None? || a.header.None? || a.proof.None? || LeafExtraOf(a.proof.value).None? then
      s.(relay := RelayEnded)
    else s.(relay := AwaitHeadProof(a.number), maps := s.maps.(beefy := FileBeefy(s.maps.beefy, busy, a)))
  }

  function ApplyRelayHead(s: State, busy: bool, head: Option<ParaMerkleProof>): State {
    s.(relay := if HeadKey(head).None? then RelayEnded else AwaitRelayBlock,
       maps := s.maps.(heads := FileHead(s.maps.heads, busy, head)))
  }

  // The parachain collector.

  function ApplyParaMessage(s: State, busy: bool, root: Option<H256>, proof: Option<LeavesProof>): State {
    if root.None? || proof.None? then s.(para := ParaEnded)
    else if busy then s.(para := AwaitChannelProof(root.value))
    else
      s.(para := AwaitChannelProof(root.value),
         maps := s.maps.(messages := s.maps.messages[root.value := proof.value]),
         log := if root.value in s.maps.messages then s.log else s.log + [Entry(InsertedRoot, root.value)])
  }

  function ApplyParaChannel(s: State, busy: bool, channel: Option<ChannelMerkleProof>): State
    requires s.para.AwaitChannelProof?
  {
    if channel.None? then s.(para := ParaEnded)
    else if busy then s.(para := CheckRootKnown(s.para.msgRoot, channel.value))
    else
      s.(para := CheckRootKnown(s.para.msgRoot, channel.value),
         maps := s.maps.(channelRoots := s.maps.channelRoots[channel.value.root := channel.value]))
  }

  function ApplyParaCheck(s: State, busy: bool): State
    requires s.para.CheckRootKnown?
  {
    if !busy && s.para.channel.leaf in s.maps.messages
    then s.(para := StoreChannelProof(s.para.msgRoot, s.para.channel))
    else s.(para := AwaitParaBlock)
  }

  function ApplyParaStore(s: State, busy: bool): State
    requires s.para.StoreChannelProof?
  {
    if busy then s.(para := AwaitParaBlock)
    else
      s.(para := AwaitParaBlock,
         maps := s.maps.(channels := s.maps.channels[s.para.msgRoot := s.para.channel]))
  }

  /** `block` is the greatest relay block number filed for a heads root, if there is any. */
  predicate IsLatest(beefy: BeefyMap, headsRoot: H256, block: Option<nat>) {
    match block
    case None => forall k :: k in beefy ==> k.0 != headsRoot
    case Some(n) => (headsRoot, n) in beefy && forall k :: k in beefy && k.0 == headsRoot ==> k.1 <= n
  }

  predicate Decodes(p: LeavesProof) {
    p.leaves.Encoded? && p.proof.Encoded?
  }

  function Parts(p: LeavesProof): (MmrProof, seq<Blob>)
    requires Decodes(p)
  {
    (p.proof.value, p.leaves.value)
  }

  // The assembler. An attempt that meets a busy lock, a missing entry or undecodable bytes is given up.

  function ApplyAsmPick(s: State, busy: bool, first: H256): State {
    if !busy && first in s.maps.messages then s.(asm := Picked(first, s.maps.messages[first])) else s
  }

  function ApplyAsmMatch(s: State, busy: bool): State
    requires s.asm.Picked?
  {
    if !busy && s.asm.root in s.maps.channels && Decodes(s.asm.picked)
    then s.(asm := Matched(s.asm.root, Parts(s.asm.picked)))
    else s.(asm := Idle)
  }

  function ApplyAsmChannel(s: State, busy: bool): State
    requires s.asm.Matched?
  {
    if !busy && s.asm.root in s.maps.channels
    then s.(asm := GotChannel(s.asm.root, s.asm.stage4, s.maps.channels[s.asm.root]))
    else s.(asm := Idle)
  }

  function ApplyAsmHead(s: State, busy: bool): State
    requires s.asm.GotChannel?
  {
    if !busy && s.asm.channel.root in s.maps.heads
    then s.(asm := GotHead(s.asm.root, s.asm.stage4, s.asm.channel, s.maps.heads[s.asm.channel.root]))
    else s.(asm := Idle)
  }

  function ApplyAsmBeefy(s: State, busy: bool, latest: Option<nat>): State
    requires s.asm.GotHead?
    requires busy || latest.None? || (s.asm.head.root, latest.value) in s.maps.beefy
  {
    if busy || latest.None? || !Decodes(s.maps.beefy[(s.asm.head.root, latest.value)].1) then s.(asm := Idle)
    else
      var (beefyRoot, stage1) := s.maps.beefy[(s.asm.head.root, latest.value)];
      var xcmp := XcmpProof(Parts(stage1), s.asm.head, s.asm.channel, s.asm.stage4);
      s.(asm := GotBeefy(Submission(s.asm.root, latest.value, xcmp, beefyRoot)))
  }

  function ApplyAsmRemove(s: State, busy: bool): State
    requires s.asm.GotBeefy?
  {
    var root := s.asm.sub.root;
    if !busy && root in s.maps.messages then
      s.(asm := Removed(s.asm.sub),
         maps := s.maps.(messages := s.maps.messages - {root}),
         log := s.log + [Entry(RemovedRoot, root)])
    else s.(asm := Idle)
  }

  function ApplyAsmSubmit(s: State, sent: bool): State
    requires s.asm.Removed?
  {
    if sent then s.(asm := Idle, submitted := s.submitted + [s.asm.sub])
    else s.(asm := Idle, log := s.log + [Entry(DroppedRoot, s.asm.sub.root)])
  }

  // ---------------------------------------------------------------- runs

  /** `k` comes first when the keys are iterated in order. */
  predicate IsFirst(lt: (H256, H256) -> bool, k: H256, keys: set<H256>) {
    k in keys && forall j | j in keys :: j == k || lt(k, j)
  }

  /** The task that takes the step is at the matching position. */
  predicate Enabled(lt: (H256, H256) -> bool, s: State, step: Step) {
    match step
    case RelayBeefy(_, _) => s.relay.AwaitRelayBlock?
    case RelayHead(_, _) => s.relay.AwaitHeadProof?
    case RelayStop => true
    case ParaMessage(_, _, _) => s.para.AwaitParaBlock?
    case ParaChannel(_, _) => s.para.AwaitChannelProof?
    case ParaCheck(_) => s.para.CheckRootKnown?
    case ParaStore(_) => s.para.StoreChannelProof?
    case ParaStop => true
    case AsmPick(busy, first) =>
      s.asm.Idle? && (busy || s.maps.messages == map[] || IsFirst(lt, first, s.maps.messages.Keys))
    case AsmMatch(_) => s.asm.Picked?
    case AsmChannel(_) => s.asm.Matched?
    case AsmHead(_) => s.asm.GotChannel?
    case AsmBeefy(busy, latest) => s.asm.GotHead? && (busy || IsLatest(s.maps.beefy, s.asm.head.root, latest))
    case AsmRemove(_) => s.asm.GotBeefy?
    case AsmSubmit(_) => s.asm.Removed?
  }

  function Apply(lt: (H256, H256) -> bool, s: State, step: Step): State
    requires Enabled(lt, s, step)
  {
    match step
    case RelayBeefy(busy, a) => ApplyRelayBeefy(s, busy, a)
    case RelayHead(busy, head) => ApplyRelayHead(s, busy, head)
    case RelayStop => s.(relay := RelayEnded)
    case ParaMessage(busy, root, proof) => ApplyParaMessage(s, busy, root, proof)
    case ParaChannel(busy, channel) => ApplyParaChannel(s, busy, channel)
    case ParaCheck(busy) => ApplyParaCheck(s, busy)
    case ParaStore(busy) => ApplyParaStore(s, busy)
    case ParaStop => s.(para := ParaEnded)
    case AsmPick(busy, first) => ApplyAsmPick(s, busy, first)
    case AsmMatch(busy) => ApplyAsmMatch(s, busy)
    case AsmChannel(busy) => ApplyAsmChannel(s, busy)
    case AsmHead(busy) => ApplyAsmHead(s, busy)
    case AsmBeefy(busy, latest) => ApplyAsmBeefy(s, busy, latest)
    case AsmRemove(busy) => ApplyAsmRemove(s, busy)
    case AsmSubmit(sent) => ApplyAsmSubmit(s, sent)
  }

  /** Any interleaving of the three tasks from the empty maps. */
  predicate ValidRun(lt: (H256, H256) -> bool, states: seq<State>, steps: seq<Step>) {
    && |states| == |steps| + 1
    && states[0] == INITIAL
    && forall i :: 0 <= i < |steps| ==> Enabled(lt, states[i], steps[i]) && states[i + 1] == Apply(lt, states[i], steps[i])
  }

  // ---------------------------------------------------------------- join keys: no assumption on the answers

  predicate HeadsKeyed(heads: map<H256, ParaMerkleProof>) {
    forall c :: c in heads ==> Receiver.ExtractXcmpChannelRoot(heads[c].leaf) == Receiver.Extracted(c) && c != Zero
  }

  predicate BeefyKeyed(beefy: BeefyMap) {
    forall k :: k in beefy ==> LeafExtraOf(beefy[k].1) == Some(k.0)
  }

  predicate ChannelRootsKeyed(channelRoots: map<H256, ChannelMerkleProof>) {
    forall c :: c in channelRoots ==> channelRoots[c].root == c
  }

  /** The values the assembler holds belong together. */
  predicate Chained(s: State) {
    match s.asm
    case Idle => true
    case Picked(r, _) => r in s.maps.messages
    case Matched(r, _) => r in s.maps.messages && r in s.maps.channels
    case GotChannel(r, _, _) => r in s.maps.messages
    case GotHead(r, _, c, h) =>
      r in s.maps.messages && Receiver.ExtractXcmpChannelRoot(h.leaf) == Receiver.Extracted(c.root)
    case GotBeefy(sub) => sub.root in s.maps.messages && JoinedBelow(sub.xcmp)
    case Removed(sub) => JoinedBelow(sub.xcmp)
  }

  /** Stage 2 names the root of stage 3, and stage 1 names the root of stage 2. */
  predicate JoinedBelow(x: XcmpProof) {
    && Receiver.ExtractXcmpChannelRoot(x.stage2.leaf) == Receiver.Extracted(x.stage3.root)
    && x.stage1.1 != []
    && DecodeBeefyLeaf(x.stage1.1[0]).Some?
    && DecodeBeefyLeaf(x.stage1.1[0]).value.leafExtra == x.stage2.root
  }

  predicate MapsKeyed(s: State) {
    HeadsKeyed(s.maps.heads) && BeefyKeyed(s.maps.beefy) && ChannelRootsKeyed(s.maps.channelRoots)
  }

  predicate IsAsmStep(step: Step) {
    step.AsmPick? || step.AsmMatch? || step.AsmChannel? || step.AsmHead? || step.AsmBeefy?
    || step.AsmRemove? || step.AsmSubmit?
  }

  lemma FileHeadKeyed(heads: map<H256, ParaMerkleProof>, busy: bool, head: Option<ParaMerkleProof>)
    requires HeadsKeyed(heads)
    ensures HeadsKeyed(FileHead(heads, busy, head))
  {
  }

  lemma FileBeefyKeyed(beefy: BeefyMap, busy: bool, a: RelayAnswer)
    requires BeefyKeyed(beefy)
    ensures BeefyKeyed(FileBeefy(beefy, busy, a))
  {
  }

  lemma MapsKeyedStep(lt: (H256, H256) -> bool, s: State, step: Step)
    requires MapsKeyed(s) && Enabled(lt, s, step)
    ensures MapsKeyed(Apply(lt, s, step))
  {
    match step
    case RelayBeefy(busy, a) => FileBeefyKeyed(s.maps.beefy, busy, a);
    case RelayHead(busy, head) => FileHeadKeyed(s.maps.heads, busy, head);
    case _ =>
  }

  /** Collectors only add or overwrite entries, and they leave the assembler alone. */
  lemma CollectorsOnlyAdd(lt: (H256, H256) -> bool, s: State, step: Step)
    requires Enabled(lt, s, step) && !IsAsmStep(step)
    ensures var t := Apply(lt, s, step);
            && t.asm == s.asm && t.submitted == s.submitted
            && s.maps.messages.Keys <= t.maps.messages.Keys && s.maps.channels.Keys <= t.maps.channels.Keys
            && s.maps.heads.Keys <= t.maps.heads.Keys && s.maps.beefy.Keys <= t.maps.beefy.Keys
            && s.maps.channelRoots.Keys <= t.maps.channelRoots.Keys
  {
    match step
    case RelayBeefy(_, _) =>
    case RelayHead(_, _) =>
    case RelayStop =>
    case ParaMessage(_, _, _) =>
    case ParaChannel(_, _) =>
    case ParaCheck(_) =>
    case ParaStore(_) =>
    case ParaStop =>
  }

  /** The assembler changes no map except that it removes the root it holds from the messages. */
  lemma AssemblerOnlyRemoves(lt: (H256, H256) -> bool, s: State, step: Step)
    requires Enabled(lt, s, step) && IsAsmStep(step)
    ensures var t := Apply(lt, s, step);
            && t.relay == s.relay && t.para == s.para
            && t.maps == if t.asm.Removed? then s.maps.(messages := s.maps.messages - {t.asm.sub.root}) else s.maps
  {
    match step
    case AsmPick(_, _) =>
    case AsmMatch(_) =>
    case AsmChannel(_) =>
    case AsmHead(_) =>
    case AsmBeefy(_, _) =>
    case AsmRemove(_) =>
    case AsmSubmit(_) =>
  }

  /** A step that meets a busy lock writes nothing, and an attempt of the assembler is given up. */
  lemma BusyWritesNothing(lt: (H256, H256) -> bool, s: State, step: Step)
    requires Enabled(lt, s, step) && !step.RelayStop? && !step.ParaStop? && !step.AsmSubmit? && step.busy
    ensures var t := Apply(lt, s, step);
            && t.maps == s.maps && t.log == s.log && t.submitted == s.submitted
            && t.asm == if IsAsmStep(step) then Idle else s.asm
  {
    match step
    case RelayBeefy(_, _) =>
    case RelayHead(_, _) =>
    case ParaMessage(_, _, _) =>
    case ParaChannel(_, _) =>
    case ParaCheck(_) =>
    case ParaStore(_) =>
    case AsmPick(_, _) =>
    case AsmMatch(_) =>
    case AsmChannel(_) =>
    case AsmHead(_) =>
    case AsmBeefy(_, _) =>
    case AsmRemove(_) =>
  }

  /** Where the relay collector goes: it gives up exactly on a missing answer, on Beefy leaves whose first
      does not decode, and on a head without a channel root other than zero. A busy lock or a wrong header
      number is no reason. */
  lemma RelayGoesOn(lt: (H256, H256) -> bool, s: State, step: Step)
    requires Enabled(lt, s, step) && (step.RelayBeefy? || step.RelayHead? || step.RelayStop?)
    ensures Apply(lt, s, step).relay ==
            match step
            case RelayBeefy(_, a) =>
              if || a.root.None? || a.header.None? || a.proof.None? || a.proof.value.leaves.Garbled?
                 || a.proof.value.leaves.value == [] || DecodeBeefyLeaf(a.proof.value.leaves.value[0]).None?
              then RelayEnded else AwaitHeadProof(a.number)
            case RelayHead(_, h) =>
              if && h.Some? && Receiver.ExtractXcmpChannelRoot(h.value.leaf).Extracted?
                 && Receiver.ExtractXcmpChannelRoot(h.value.leaf) != Receiver.Extracted(Zero)
              then AwaitRelayBlock else RelayEnded
            case _ => RelayEnded
  {
  }

  /** Where the parachain collector goes: it gives up exactly on a missing answer, and it stores a channel
      proof exactly when its leaf is a pending root. */
  lemma ParaGoesOn(lt: (H256, H256) -> bool, s: State, step: Step)
    requires Enabled(lt, s, step)
    requires step.ParaMessage? || step.ParaChannel? || step.ParaCheck? || step.ParaStore? || step.ParaStop?
    ensures Apply(lt, s, step).para ==
            match step
            case ParaMessage(_, r, p) => if r.Some? && p.Some? then AwaitChannelProof(r.value) else ParaEnded
            case ParaChannel(_, c) => if c.Some? then CheckRootKnown(s.para.msgRoot, c.value) else ParaEnded
            case ParaCheck(busy) =>
              if !busy && s.para.channel.leaf in s.maps.messages
              then StoreChannelProof(s.para.msgRoot, s.para.channel) else AwaitParaBlock
            case ParaStore(_) => AwaitParaBlock
            case _ => ParaEnded
  {
  }

  /** From `s` to `t`, a relay collector that has given up writes nothing. */
  predicate RelaySilent(s: State, t: State) {
    s.relay.RelayEnded? ==> t.relay.RelayEnded? && t.maps.beefy == s.maps.beefy && t.maps.heads == s.maps.heads
  }

  /** The same for the parachain collector; only the assembler goes on consuming messages. */
  predicate ParaSilent(s: State, t: State) {
    s.para.ParaEnded? ==>
      && t.para.ParaEnded? && t.maps.messages.Keys <= s.maps.messages.Keys
      && t.maps.channels == s.maps.channels && t.maps.channelRoots == s.maps.channelRoots
  }

  lemma SilentStep(lt: (H256, H256) -> bool, s: State, step: Step)
    requires Enabled(lt, s, step)
    ensures RelaySilent(s, Apply(lt, s, step)) && ParaSilent(s, Apply(lt, s, step))
  {
    if IsAsmStep(step) {
      AssemblerOnlyRemoves(lt, s, step);
    }
  }

  predicate Silent(s: State, t: State) {
    RelaySilent(s, t) && ParaSilent(s, t)
  }

  predicate SilentAt(states: seq<State>, i: nat)
    requires i + 1 < |states|
  {
    Silent(states[i], states[i + 1])
  }

  lemma {:induction false} SilentBetween(states: seq<State>, i: nat, k: nat)
    requires i <= k < |states| && forall p :: i <= p < k ==> SilentAt(states, p)
    ensures Silent(states[i], states[k])
    decreases k - i
  {
    if i < k {
      SilentBetween(states, i, k - 1);
      assert SilentAt(states, k - 1);
    }
  }

  /** A collector that has given up never comes back. */
  lemma EndedForever(lt: (H256, H256) -> bool, states: seq<State>, steps: seq<Step>, i: nat, k: nat)
    requires ValidRun(lt, states, steps) && i <= k < |states|
    ensures RelaySilent(states[i], states[k]) && ParaSilent(states[i], states[k])
  {
    forall p | i <= p < k
      ensures SilentAt(states, p)
    {
      SilentStep(lt, states[p], steps[p]);
    }
    SilentBetween(states, i, k);
  }

  lemma ChainedAsmStep(lt: (H256, H256) -> bool, s: State, step: Step)
    requires MapsKeyed(s) && Chained(s) && Enabled(lt, s, step) && IsAsmStep(step)
    ensures Chained(Apply(lt, s, step))
  {
  }

  lemma ChainedStep(lt: (H256, H256) -> bool, s: State, step: Step)
    requires MapsKeyed(s) && Chained(s) && Enabled(lt, s, step)
    ensures Chained(Apply(lt, s, step))
  {
    if IsAsmStep(step) {
      ChainedAsmStep(lt, s, step);
    } else {
      CollectorsOnlyAdd(lt, s, step);
    }
  }

  /** In every state of every interleaving, whatever the nodes answer, a head proof is filed under
      the channel root of its own header, a Beefy proof under the heads root of its own leaf, and
      what the assembler holds is chained and still present. */
  lemma {:induction false} JoinKeysAlways(lt: (H256, H256) -> bool, states: seq<State>, steps: seq<Step>, i: nat)
    requires ValidRun(lt, states, steps) && i < |states|
    ensures MapsKeyed(states[i]) && Chained(states[i])
  {
    if i > 0 {
      JoinKeysAlways(lt, states, steps, i - 1);
      MapsKeyedStep(lt, states[i - 1], steps[i - 1]);
      ChainedStep(lt, states[i - 1], steps[i - 1]);
    }
  }

  /** Only a sent submission extends the list of submissions. */
  lemma SubmittedByStep(lt: (H256, H256) -> bool, s: State, step: Step)
    requires Enabled(lt, s, step)
    ensures Apply(lt, s, step).submitted ==
            if step.AsmSubmit? && step.sent then s.submitted + [s.asm.sub] else s.submitted
  {
  }

  lemma {:induction false} SubmissionsJoined(
    lt: (H256, H256) -> bool, states: seq<State>, steps: seq<Step>, i: nat)
    requires ValidRun(lt, states, steps) && i < |states|
    ensures forall k :: 0 <= k < |states[i].submitted| ==> JoinedBelow(states[i].submitted[k].xcmp)
  {
    if i > 0 {
      SubmissionsJoined(lt, states, steps, i - 1);
      JoinKeysAlways(lt, states, steps, i - 1);
      SubmittedByStep(lt, states[i - 1], steps[i - 1]);
    }
  }

  /** Whatever the nodes answer, no submission of any run names a wrong root at any stage: it is
      accepted exactly when each stage verifies on its own. */
  lemma AcceptedIffStagesVerify(
    lt: (H256, H256) -> bool, states: seq<State>, steps: seq<Step>, i: nat, k: nat, seen: set<H256>)
    requires ValidRun(lt, states, steps) && i < |states| && k < |states[i].submitted|
    ensures var (x, beefyRoot) := (states[i].submitted[k].xcmp, states[i].submitted[k].beefyRoot);
            Receiver.Accepts(seen, x, beefyRoot) <==>
              && beefyRoot in seen && |x.stage1.1| == 1
              && Receiver.FitsUsize(x.stage2.numLeaves, x.stage2.leafIndex)
              && Receiver.FitsUsize(x.stage3.numLeaves, x.stage3.leafIndex)
              && Receiver.Stage1Verifies(x, beefyRoot) && HeadProofVerifies(x.stage2)
              && ChannelProofVerifies(x.stage3) && Receiver.Stage4Verifies(x)
  {
    SubmissionsJoined(lt, states, steps, i);
    assert JoinedBelow(states[i].submitted[k].xcmp);
  }

  /** Under every interleaving, past the membership check the channel lookup and the removal of
      the message root fail on a busy lock and for no other reason. */
  lemma OnlyBusyLocksFail(lt: (H256, H256) -> bool, states: seq<State>, steps: seq<Step>, i: nat)
    requires ValidRun(lt, states, steps) && i < |steps|
    ensures steps[i].AsmChannel? ==> (states[i + 1].asm.GotChannel? <==> !steps[i].busy)
    ensures steps[i].AsmRemove? ==> (states[i + 1].asm.Removed? <==> !steps[i].busy)
  {
    JoinKeysAlways(lt, states, steps, i);
  }

  /** The message root an attempt is about. */
  function HeldRoot(a: AsmTask): H256
    requires !a.Idle?
  {
    if a.GotBeefy? || a.Removed? then a.sub.root else a.root
  }

  /** The root held by the assembler never changes during an attempt and stays pending until the
      attempt removes it, whatever the collectors do in between. */
  lemma HeldRootStaysPending(lt: (H256, H256) -> bool, states: seq<State>, steps: seq<Step>, i: nat)
    requires ValidRun(lt, states, steps) && i < |steps|
    requires !states[i].asm.Idle? && !states[i].asm.Removed? && !states[i + 1].asm.Idle?
    ensures HeldRoot(states[i + 1].asm) == HeldRoot(states[i].asm)
    ensures HeldRoot(states[i].asm) in states[i].maps.messages
    ensures HeldRoot(states[i].asm) in states[i + 1].maps.messages <==> !states[i + 1].asm.Removed?
  {
    JoinKeysAlways(lt, states, steps, i);
    var s, step := states[i], steps[i];
    if IsAsmStep(step) {
      AssemblerOnlyRemoves(lt, s, step);
    } else {
      CollectorsOnlyAdd(lt, s, step);
    }
  }

  // ---------------------------------------------------------------- conservation of message roots

  function Tally(log: seq<Entry>, kind: Kind, r: H256): nat {
    multiset(log)[Entry(kind, r)]
  }

  function One(b: bool): nat {
    if b then 1 else 0
  }

  /** How many submissions were assembled for a message root. */
  function SubmissionsFor(subs: seq<Submission>, r: H256): nat {
    if subs == [] then 0
    else SubmissionsFor(subs[..|subs| - 1], r) + One(subs[|subs| - 1].root == r)
  }

  predicate Pending(s: State, r: H256) {
    r in s.maps.messages
  }

  predicate InFlight(s: State, r: H256) {
    s.asm.Removed? && s.asm.sub.root == r
  }

  /** Each new insertion of a root is pending or was removed. */
  predicate InsertionsConserved(s: State, r: H256) {
    Tally(s.log, InsertedRoot, r) == Tally(s.log, RemovedRoot, r) + One(Pending(s, r))
  }

  /** Each removal of a root was submitted, was dropped on a node error, or is about to be submitted. */
  predicate RemovalsConserved(s: State, r: H256) {
    Tally(s.log, RemovedRoot, r)
    == SubmissionsFor(s.submitted, r) + Tally(s.log, DroppedRoot, r) + One(InFlight(s, r))
  }

  lemma TallyAppend(log: seq<Entry>, e: Entry, kind: Kind, r: H256)
    ensures Tally(log + [e], kind, r) == Tally(log, kind, r) + One(e == Entry(kind, r))
  {
    assert multiset(log + [e]) == multiset(log) + multiset{e};
  }

  lemma QuietSteps(lt: (H256, H256) -> bool, s: State, step: Step, r: H256)
    requires Enabled(lt, s, step) && !step.ParaMessage? && !step.AsmRemove? && !step.AsmSubmit?
    ensures var t := Apply(lt, s, step);
            && t.log == s.log && t.submitted == s.submitted
            && Pending(t, r) == Pending(s, r) && InFlight(t, r) == InFlight(s, r)
  {
  }

  lemma MessageConserves(s: State, busy: bool, root: Option<H256>, proof: Option<LeavesProof>, r: H256)
    requires InsertionsConserved(s, r) && RemovalsConserved(s, r)
    ensures var t := ApplyParaMessage(s, busy, root, proof); InsertionsConserved(t, r) && RemovalsConserved(t, r)
  {
    if root.Some? {
      var e := Entry(InsertedRoot, root.value);
      TallyAppend(s.log, e, InsertedRoot, r);
      TallyAppend(s.log, e, RemovedRoot, r);
      TallyAppend(s.log, e, DroppedRoot, r);
    }
  }

  lemma RemovalConserves(s: State, busy: bool, r: H256)
    requires s.asm.GotBeefy? && InsertionsConserved(s, r) && RemovalsConserved(s, r)
    ensures var t := ApplyAsmRemove(s, busy); InsertionsConserved(t, r) && RemovalsConserved(t, r)
  {
    var e := Entry(RemovedRoot, s.asm.sub.root);
    TallyAppend(s.log, e, InsertedRoot, r);
    TallyAppend(s.log, e, RemovedRoot, r);
    TallyAppend(s.log, e, DroppedRoot, r);
  }

  lemma SubmissionConserves(s: State, sent: bool, r: H256)
    requires s.asm.Removed? && InsertionsConserved(s, r) && RemovalsConserved(s, r)
    ensures var t := ApplyAsmSubmit(s, sent); InsertionsConserved(t, r) && RemovalsConserved(t, r)
  {
    var e := Entry(DroppedRoot, s.asm.sub.root);
    TallyAppend(s.log, e, InsertedRoot, r);
    TallyAppend(s.log, e, RemovedRoot, r);
    TallyAppend(s.log, e, DroppedRoot, r);
    assert (s.submitted + [s.asm.sub])[..|s.submitted|] == s.submitted;
  }

  lemma ConservedStep(lt: (H256, H256) -> bool, s: State, step: Step, r: H256)
    requires Enabled(lt, s, step) && InsertionsConserved(s, r) && RemovalsConserved(s, r)
    ensures InsertionsConserved(Apply(lt, s, step), r) && RemovalsConserved(Apply(lt, s, step), r)
  {
    match step
    case ParaMessage(busy, root, proof) => MessageConserves(s, busy, root, proof, r);
    case AsmRemove(busy) => RemovalConserves(s, busy, r);
    case AsmSubmit(sent) => SubmissionConserves(s, sent, r);
    case _ => QuietSteps(lt, s, step, r);
  }

  /** In every state of every interleaving, for every root: insertions are pending or removed, and
      removals are submissions made, losses, or the submission in flight. */
  lemma {:induction false} ConservedAlways(
    lt: (H256, H256) -> bool, states: seq<State>, steps: seq<Step>, i: nat, r: H256)
    requires ValidRun(lt, states, steps) && i < |states|
    ensures InsertionsConserved(states[i], r) && RemovalsConserved(states[i], r)
  {
    if i > 0 {
      ConservedAlways(lt, states, steps, i - 1, r);
      ConservedStep(lt, states[i - 1], steps[i - 1], r);
    }
  }

  /** The step collects a message proof for the root `r`. */
  predicate Collects(step: Step, r: H256) {
    step.ParaMessage? && step.msgRoot == Some(r) && step.msgProof.Some?
  }

  function Collections(steps: seq<Step>, r: H256): nat {
    if steps == [] then 0
    else Collections(steps[..|steps| - 1], r) + One(Collects(steps[|steps| - 1], r))
  }

  lemma InsertionsByStep(lt: (H256, H256) -> bool, s: State, step: Step, r: H256)
    requires Enabled(lt, s, step)
    ensures Tally(Apply(lt, s, step).log, InsertedRoot, r) <= Tally(s.log, InsertedRoot, r) + One(Collects(step, r))
  {
    match step
    case ParaMessage(_, root, _) =>
      if root.Some? {
        TallyAppend(s.log, Entry(InsertedRoot, root.value), InsertedRoot, r);
      }
    case AsmRemove(_) => TallyAppend(s.log, Entry(RemovedRoot, s.asm.sub.root), InsertedRoot, r);
    case AsmSubmit(_) => TallyAppend(s.log, Entry(DroppedRoot, s.asm.sub.root), InsertedRoot, r);
    case _ => QuietSteps(lt, s, step, r);
  }

  lemma {:induction false} InsertionsAreCollections(
    lt: (H256, H256) -> bool, states: seq<State>, steps: seq<Step>, i: nat, r: H256)
    requires ValidRun(lt, states, steps) && i < |states|
    ensures Tally(states[i].log, InsertedRoot, r) <= Collections(steps[..i], r)
  {
    if i > 0 {
      InsertionsAreCollections(lt, states, steps, i - 1, r);
      InsertionsByStep(lt, states[i - 1], steps[i - 1], r);
      assert steps[..i][..i - 1] == steps[..i - 1];
    }
  }

  /** Whatever the nodes answer, a root is never submitted more often than it was collected. */
  lemma SubmittedAtMostAsCollected(lt: (H256, H256) -> bool, states: seq<State>, steps: seq<Step>, i: nat, r: H256)
    requires ValidRun(lt, states, steps) && i < |states|
    ensures SubmissionsFor(states[i].submitted, r) <= Collections(steps[..i], r)
  {
    ConservedAlways(lt, states, steps, i, r);
    InsertionsAreCollections(lt, states, steps, i, r);
  }

  predicate WasCollected(s: State, r: H256) {
    Entry(InsertedRoot, r) in s.log
  }

  predicate ChannelsCollected(s: State) {
    && (forall r :: r in s.maps.messages ==> WasCollected(s, r))
    && (forall r :: r in s.maps.channels ==> WasCollected(s, s.maps.channels[r].leaf))
    && (s.para.StoreChannelProof? ==> WasCollected(s, s.para.channel.leaf))
  }

  lemma LogGrows(lt: (H256, H256) -> bool, s: State, step: Step)
    requires Enabled(lt, s, step)
    ensures forall r :: WasCollected(s, r) ==> WasCollected(Apply(lt, s, step), r)
  {
  }

  lemma ChannelsCollectedByCollector(lt: (H256, H256) -> bool, s: State, step: Step)
    requires ChannelsCollected(s) && Enabled(lt, s, step) && !IsAsmStep(step)
    ensures ChannelsCollected(Apply(lt, s, step))
  {
    LogGrows(lt, s, step);
  }

  lemma ChannelsCollectedStep(lt: (H256, H256) -> bool, s: State, step: Step)
    requires ChannelsCollected(s) && Enabled(lt, s, step)
    ensures ChannelsCollected(Apply(lt, s, step))
  {
    if IsAsmStep(step) {
      LogGrows(lt, s, step);
      AssemblerOnlyRemoves(lt, s, step);
    } else {
      ChannelsCollectedByCollector(lt, s, step);
    }
  }

  /** Whatever the nodes answer, a stored channel proof is for a message root that was collected. */
  lemma {:induction false} StoredChannelsWereCollected(
    lt: (H256, H256) -> bool, states: seq<State>, steps: seq<Step>, i: nat)
    requires ValidRun(lt, states, steps) && i < |states|
    ensures ChannelsCollected(states[i])
  {
    if i > 0 {
      StoredChannelsWereCollected(lt, states, steps, i - 1);
      ChannelsCollectedStep(lt, states[i - 1], steps[i - 1]);
    }
  }
}

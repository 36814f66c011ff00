/** When the assembler submits: the join of the four maps, read over time, at the first pending root. */
module RelayerProgress {
  import opened Hashing
  import opened ProofTypes
  import opened Mmr
  import opened Relayer

  // ---------------------------------------------------------------- the join

  predicate MessageAt(m: Maps, root: H256, stage4: (MmrProof, seq<Blob>)) {
    root in m.messages && Decodes(m.messages[root]) && stage4 == Parts(m.messages[root])
  }

  predicate ChannelAt(m: Maps, root: H256, c: ChannelMerkleProof) {
    root in m.channels && c == m.channels[root]
  }

  predicate HeadAt(m: Maps, c: ChannelMerkleProof, h: ParaMerkleProof) {
    c.root in m.heads && h == m.heads[c.root]
  }

  predicate BeefyAt(m: Maps, sub: Submission) {
    && IsLatest(m.beefy, sub.xcmp.stage2.root, Some(sub.block))
    && var (root, proof) := m.beefy[(sub.xcmp.stage2.root, sub.block)];
    sub.beefyRoot == root && Decodes(proof) && sub.xcmp.stage1 == Parts(proof)
  }

  /** The four-way join at a message root: the channel proof of the root, the head proof of the
      channel tree's root, and the latest Beefy proof of the heads root. */
  predicate JoinsAt(m: Maps, sub: Submission) {
    && MessageAt(m, sub.root, sub.xcmp.stage4) && ChannelAt(m, sub.root, sub.xcmp.stage3)
    && HeadAt(m, sub.xcmp.stage3, sub.xcmp.stage2) && BeefyAt(m, sub)
  }

  ghost predicate HasJoin(m: Maps, root: H256) {
    exists sub: Submission :: sub.root == root && JoinsAt(m, sub)
  }

  lemma LatestIsUnique(beefy: BeefyMap, headsRoot: H256, a: nat, b: nat)
    requires IsLatest(beefy, headsRoot, Some(a)) && IsLatest(beefy, headsRoot, Some(b))
    ensures a == b
  {
    var k, l := (headsRoot, a), (headsRoot, b);
    assert k in beefy && l in beefy;
  }

  /** The join at a root is determined by the maps. */
  lemma JoinIsUnique(m: Maps, sub: Submission, sub': Submission)
    requires JoinsAt(m, sub) && JoinsAt(m, sub') && sub.root == sub'.root
    ensures sub == sub'
  {
    LatestIsUnique(m.beefy, sub.xcmp.stage2.root, sub.block, sub'.block);
  }

  /** A join uses the greatest relay block number filed for its heads root. */
  lemma JoinUsesGreatestBlock(m: Maps, sub: Submission, n: nat)
    requires JoinsAt(m, sub) && (sub.xcmp.stage2.root, n) in m.beefy
    ensures n <= sub.block
  {
    var k := (sub.xcmp.stage2.root, n);
    assert k in m.beefy;
  }

  lemma NoMatchNoJoin(m: Maps, r: H256)
    requires r in m.messages && (r !in m.channels || !Decodes(m.messages[r]))
    ensures !HasJoin(m, r)
  {
  }

  lemma NoHeadNoJoin(m: Maps, r: H256, c: ChannelMerkleProof)
    requires ChannelAt(m, r, c) && c.root !in m.heads
    ensures !HasJoin(m, r)
  {
  }

  /** Without a latest Beefy entry that decodes there is no join; an older entry that decodes does not help. */
  lemma NoBeefyNoJoin(m: Maps, r: H256, c: ChannelMerkleProof, h: ParaMerkleProof, latest: Option<nat>)
    requires ChannelAt(m, r, c) && HeadAt(m, c, h) && IsLatest(m.beefy, h.root, latest)
    requires latest.None? || !Decodes(m.beefy[(h.root, latest.value)].1)
    ensures !HasJoin(m, r)
  {
    if latest.Some? {
      forall sub: Submission | sub.root == r && JoinsAt(m, sub)
        ensures sub.block == latest.value
      {
        LatestIsUnique(m.beefy, h.root, sub.block, latest.value);
      }
    }
  }

  // ---------------------------------------------------------------- the join read over time

  predicate SawMessage(states: seq<State>, i: nat, t: nat, root: H256, stage4: (MmrProof, seq<Blob>))
    requires t < |states|
  {
    exists m :: i <= m <= t && MessageAt(states[m].maps, root, stage4)
  }

  predicate SawChannel(states: seq<State>, i: nat, t: nat, root: H256, stage4: (MmrProof, seq<Blob>), c: ChannelMerkleProof)
    requires t < |states|
  {
    exists m :: i <= m <= t && SawMessage(states, i, m, root, stage4) && ChannelAt(states[m].maps, root, c)
  }

  predicate SawHead(states: seq<State>, i: nat, t: nat, root: H256, stage4: (MmrProof, seq<Blob>),
                    c: ChannelMerkleProof, h: ParaMerkleProof)
    requires t < |states|
  {
    exists m :: i <= m <= t && SawChannel(states, i, m, root, stage4, c) && HeadAt(states[m].maps, c, h)
  }

  /** Between `i` and `t` the message, the channel proof, the head proof and the latest Beefy proof of
      the submission were stored at successive moments, each chained to the one before. */
  predicate SawJoin(states: seq<State>, i: nat, t: nat, sub: Submission)
    requires t < |states|
  {
    exists m :: i <= m <= t
                && SawHead(states, i, m, sub.root, sub.xcmp.stage4, sub.xcmp.stage3, sub.xcmp.stage2)
                && BeefyAt(states[m].maps, sub)
  }

  /** What the assembler holds at `t` was stored in this order since `i`. */
  predicate TimedAsm(states: seq<State>, i: nat, t: nat, a: AsmTask)
    requires t < |states|
  {
    match a
    case Idle => true
    case Picked(r, p) => exists m :: i <= m <= t && r in states[m].maps.messages && p == states[m].maps.messages[r]
    case Matched(r, st4) => SawMessage(states, i, t, r, st4)
    case GotChannel(r, st4, c) => SawChannel(states, i, t, r, st4, c)
    case GotHead(r, st4, c, h) => SawHead(states, i, t, r, st4, c, h)
    case GotBeefy(sub) => SawJoin(states, i, t, sub)
    case Removed(sub) => SawJoin(states, i, t, sub)
  }

  lemma TimedAsmLater(states: seq<State>, i: nat, t: nat, t': nat, a: AsmTask)
    requires t <= t' < |states| && TimedAsm(states, i, t, a)
    ensures TimedAsm(states, i, t', a)
  {
  }

  lemma SawJoinLater(states: seq<State>, i: nat, t: nat, t': nat, sub: Submission)
    requires t <= t' < |states| && SawJoin(states, i, t, sub)
    ensures SawJoin(states, i, t', sub)
  {
  }

  lemma TimedBeefyLookup(lt: (H256, H256) -> bool, states: seq<State>, i: nat, t: nat, busy: bool, latest: Option<nat>)
    requires i <= t < |states| && Enabled(lt, states[t], AsmBeefy(busy, latest)) && TimedAsm(states, i, t, states[t].asm)
    ensures TimedAsm(states, i, t, ApplyAsmBeefy(states[t], busy, latest).asm)
  {
    var a := ApplyAsmBeefy(states[t], busy, latest).asm;
    assert a.GotBeefy? ==> BeefyAt(states[t].maps, a.sub);
  }

  /** Each successful lookup of the assembler extends what was seen by what is stored now. */
  lemma TimedAsmStep(lt: (H256, H256) -> bool, states: seq<State>, i: nat, t: nat, step: Step)
    requires i <= t < |states| && Enabled(lt, states[t], step) && IsAsmStep(step) && TimedAsm(states, i, t, states[t].asm)
    ensures TimedAsm(states, i, t, Apply(lt, states[t], step).asm)
  {
    var s := states[t];
    match step
    case AsmPick(_, _) =>
    case AsmMatch(_) =>
    case AsmChannel(_) =>
      assert s.asm.root in s.maps.channels ==> ChannelAt(states[t].maps, s.asm.root, s.maps.channels[s.asm.root]);
    case AsmHead(_) =>
      assert s.asm.channel.root in s.maps.heads ==>
          HeadAt(states[t].maps, s.asm.channel, s.maps.heads[s.asm.channel.root]);
    case AsmBeefy(busy, latest) => TimedBeefyLookup(lt, states, i, t, busy, latest);
    case AsmRemove(_) =>
    case AsmSubmit(_) =>
  }

  /** From a moment `i` at which the assembler is idle, everything it holds was read since `i`. */
  lemma {:induction false} TimedAsmAlways(
    lt: (H256, H256) -> bool, states: seq<State>, steps: seq<Step>, i: nat, t: nat)
    requires ValidRun(lt, states, steps) && i <= t < |states| && states[i].asm.Idle?
    ensures TimedAsm(states, i, t, states[t].asm)
    decreases t - i
  {
    if i < t {
      TimedAsmAlways(lt, states, steps, i, t - 1);
      if IsAsmStep(steps[t - 1]) {
        TimedAsmStep(lt, states, i, t - 1, steps[t - 1]);
      } else {
        CollectorsOnlyAdd(lt, states[t - 1], steps[t - 1]);
      }
      TimedAsmLater(states, i, t - 1, t, states[t].asm);
    }
  }

  /** What the assembler is about to remove or to submit is a join read since it was last idle. */
  lemma HeldJoinWasSeen(lt: (H256, H256) -> bool, states: seq<State>, steps: seq<Step>, i: nat, t: nat)
    requires ValidRun(lt, states, steps) && i <= t < |states| && states[i].asm.Idle?
    ensures states[t].asm.GotBeefy? || states[t].asm.Removed? ==> SawJoin(states, i, t, states[t].asm.sub)
  {
    TimedAsmAlways(lt, states, steps, i, t);
  }

  lemma SubmissionIsOldOrHeld(lt: (H256, H256) -> bool, states: seq<State>, steps: seq<Step>, t: nat, k: nat)
    requires ValidRun(lt, states, steps) && t < |states| && k < |states[t].submitted|
    ensures 0 < t
    ensures k < |states[t - 1].submitted| ==> states[t].submitted[k] == states[t - 1].submitted[k]
    ensures k >= |states[t - 1].submitted| ==>
              states[t - 1].asm.Removed? && states[t].submitted[k] == states[t - 1].asm.sub
  {
    SubmittedByStep(lt, states[t - 1], steps[t - 1]);
  }

  /** Every submission made after a moment `i` at which the assembler is idle is a join read over time
      since `i`, under every interleaving and with any answers. */
  lemma {:induction false} SubmissionsAreTimedJoins(
    lt: (H256, H256) -> bool, states: seq<State>, steps: seq<Step>, i: nat, t: nat, k: nat)
    requires ValidRun(lt, states, steps) && i <= t < |states| && states[i].asm.Idle?
    requires |states[i].submitted| <= k < |states[t].submitted|
    ensures SawJoin(states, i, t, states[t].submitted[k])
    decreases t - i
  {
    SubmissionIsOldOrHeld(lt, states, steps, t, k);
    if k < |states[t - 1].submitted| {
      SubmissionsAreTimedJoins(lt, states, steps, i, t - 1, k);
    } else {
      HeldJoinWasSeen(lt, states, steps, i, t - 1);
    }
    SawJoinLater(states, i, t - 1, t, states[t].submitted[k]);
  }

  // ---------------------------------------------------------------- the first pending root decides

  lemma FirstIsUnique(lt: (H256, H256) -> bool, a: H256, b: H256, keys: set<H256>)
    requires forall x, y :: lt(x, y) ==> !lt(y, x)
    requires IsFirst(lt, a, keys) && IsFirst(lt, b, keys)
    ensures a == b
  {
  }

  /** The assembler is idle or on its way with the root `r`, short of having gathered its join. */
  predicate Waiting(a: AsmTask, r: H256) {
    a.Idle? || (!a.GotBeefy? && !a.Removed? && HeldRoot(a) == r)
  }

  lemma WaitingStep(lt: (H256, H256) -> bool, s: State, step: Step, r: H256)
    requires forall a, b :: lt(a, b) ==> !lt(b, a)
    requires Enabled(lt, s, step) && IsAsmStep(step) && Waiting(s.asm, r) && IsFirst(lt, r, s.maps.messages.Keys)
    ensures var t := Apply(lt, s, step);
            && (Waiting(t.asm, r) || (t.asm.GotBeefy? && t.asm.sub.root == r))
            && t.submitted == s.submitted && t.maps == s.maps
  {
    match step
    case AsmPick(busy, first) =>
      if !busy {
        FirstIsUnique(lt, r, first, s.maps.messages.Keys);
      }
    case AsmMatch(_) =>
    case AsmChannel(_) =>
    case AsmHead(_) =>
    case AsmBeefy(_, _) =>
  }

  /** No join at `r` could be read between `i` and `k`. */
  ghost predicate NeverJoined(states: seq<State>, i: nat, k: nat, r: H256)
    requires k < |states|
  {
    forall sub: Submission :: sub.root == r ==> !SawJoin(states, i, k, sub)
  }

  lemma NeverJoinedBefore(states: seq<State>, i: nat, k: nat, r: H256)
    requires 0 < k < |states| && NeverJoined(states, i, k, r)
    ensures NeverJoined(states, i, k - 1, r)
  {
    forall sub: Submission | sub.root == r
      ensures !SawJoin(states, i, k - 1, sub)
    {
      if SawJoin(states, i, k - 1, sub) {
        SawJoinLater(states, i, k - 1, k, sub);
      }
    }
  }

  lemma NeverJoinedIsNotHeld(lt: (H256, H256) -> bool, states: seq<State>, steps: seq<Step>, i: nat, k: nat, r: H256)
    requires ValidRun(lt, states, steps) && i <= k < |states| && states[i].asm.Idle? && NeverJoined(states, i, k, r)
    ensures !(states[k].asm.GotBeefy? && states[k].asm.sub.root == r)
  {
    HeldJoinWasSeen(lt, states, steps, i, k);
  }

  lemma BlockedStep(lt: (H256, H256) -> bool, s: State, step: Step, r: H256)
    requires forall a, b :: lt(a, b) ==> !lt(b, a)
    requires Enabled(lt, s, step) && Waiting(s.asm, r) && IsFirst(lt, r, s.maps.messages.Keys)
    ensures var t := Apply(lt, s, step);
            && (Waiting(t.asm, r) || (t.asm.GotBeefy? && t.asm.sub.root == r))
            && t.submitted == s.submitted && s.maps.messages.Keys <= t.maps.messages.Keys
  {
    if IsAsmStep(step) {
      WaitingStep(lt, s, step, r);
    } else {
      CollectorsOnlyAdd(lt, s, step);
    }
  }

  /** As long as no join can be read at the first pending root, nothing is removed or submitted,
      whatever other roots are pending and complete. */
  lemma {:induction false} FirstRootBlocksOthers(
    lt: (H256, H256) -> bool, states: seq<State>, steps: seq<Step>, i: nat, k: nat, r: H256)
    requires forall a, b :: lt(a, b) ==> !lt(b, a)
    requires ValidRun(lt, states, steps) && i <= k < |states| && states[i].asm.Idle?
    requires forall m :: i <= m <= k ==> IsFirst(lt, r, states[m].maps.messages.Keys)
    requires NeverJoined(states, i, k, r)
    ensures states[k].submitted == states[i].submitted
    ensures states[i].maps.messages.Keys <= states[k].maps.messages.Keys
    ensures Waiting(states[k].asm, r)
    decreases k - i
  {
    if i < k {
      NeverJoinedBefore(states, i, k, r);
      FirstRootBlocksOthers(lt, states, steps, i, k - 1, r);
      BlockedStep(lt, states[k - 1], steps[k - 1], r);
      NeverJoinedIsNotHeld(lt, states, steps, i, k, r);
    }
  }

  // The ways in which a root stays without a join between `i` and `k`.

  predicate NeverDecodes(states: seq<State>, i: nat, k: nat, r: H256)
    requires k < |states|
  {
    forall m :: i <= m <= k && r in states[m].maps.messages ==> !Decodes(states[m].maps.messages[r])
  }

  predicate NeverHasChannel(states: seq<State>, i: nat, k: nat, r: H256)
    requires k < |states|
  {
    forall m :: i <= m <= k ==> r !in states[m].maps.channels
  }

  predicate NeverHasHead(states: seq<State>, i: nat, k: nat, r: H256)
    requires k < |states|
  {
    forall m, n :: i <= m <= n <= k && r in states[m].maps.channels ==>
      states[m].maps.channels[r].root !in states[n].maps.heads
  }

  predicate NeverHasBeefy(states: seq<State>, i: nat, k: nat)
    requires k < |states|
  {
    forall m, n, c, b | i <= m <= n <= k && c in states[m].maps.heads && b in states[n].maps.beefy ::
      states[m].maps.heads[c].root == b.0 ==> !Decodes(states[n].maps.beefy[b].1)
  }

  lemma SawJoinParts(states: seq<State>, i: nat, k: nat, sub: Submission) returns (m1: nat, m2: nat, m3: nat, m4: nat)
    requires k < |states| && SawJoin(states, i, k, sub)
    ensures i <= m1 <= m2 <= m3 <= m4 <= k
    ensures MessageAt(states[m1].maps, sub.root, sub.xcmp.stage4) && ChannelAt(states[m2].maps, sub.root, sub.xcmp.stage3)
    ensures HeadAt(states[m3].maps, sub.xcmp.stage3, sub.xcmp.stage2) && BeefyAt(states[m4].maps, sub)
  {
    var x := sub.xcmp;
    m4 :| i <= m4 <= k && SawHead(states, i, m4, sub.root, x.stage4, x.stage3, x.stage2) && BeefyAt(states[m4].maps, sub);
    m3 :| i <= m3 <= m4 && SawChannel(states, i, m3, sub.root, x.stage4, x.stage3)
          && HeadAt(states[m3].maps, x.stage3, x.stage2);
    m2 :| i <= m2 <= m3 && SawMessage(states, i, m2, sub.root, x.stage4) && ChannelAt(states[m2].maps, sub.root, x.stage3);
    m1 :| i <= m1 <= m2 && MessageAt(states[m1].maps, sub.root, x.stage4);
  }

  /** A join needs each of its four parts: a message that decodes, a channel proof, a head filed under
      the channel tree root, and a Beefy proof that decodes. */
  lemma JoinNeedsEveryPart(states: seq<State>, i: nat, k: nat, sub: Submission)
    requires k < |states| && SawJoin(states, i, k, sub)
    ensures !NeverDecodes(states, i, k, sub.root) && !NeverHasChannel(states, i, k, sub.root)
    ensures !NeverHasHead(states, i, k, sub.root) && !NeverHasBeefy(states, i, k)
  {
    var m1, m2, m3, m4 := SawJoinParts(states, i, k, sub);
    assert (sub.xcmp.stage2.root, sub.block) in states[m4].maps.beefy;
  }

  // ---------------------------------------------------------------- runs that submit

  lemma ExtendRun(lt: (H256, H256) -> bool, states: seq<State>, steps: seq<Step>, step: Step)
    returns (states': seq<State>, steps': seq<Step>)
    requires ValidRun(lt, states, steps) && Enabled(lt, states[|steps|], step)
    ensures steps' == steps + [step] && states' == states + [Apply(lt, states[|steps|], step)]
    ensures ValidRun(lt, states', steps')
  {
    steps' := steps + [step];
    states' := states + [Apply(lt, states[|steps|], step)];
  }

  /** The assembler after `k` lookups on the way to a join. */
  function GatherAsm(m: Maps, sub: Submission, k: nat): AsmTask
    requires sub.root in m.messages
  {
    var (r, x) := (sub.root, sub.xcmp);
    if k == 0 then Idle
    else if k == 1 then Picked(r, m.messages[r])
    else if k == 2 then Matched(r, x.stage4)
    else if k == 3 then GotChannel(r, x.stage4, x.stage3)
    else if k == 4 then GotHead(r, x.stage4, x.stage3, x.stage2)
    else GotBeefy(sub)
  }

  function GatherSteps(sub: Submission): seq<Step> {
    [AsmPick(false, sub.root), AsmMatch(false), AsmChannel(false), AsmHead(false), AsmBeefy(false, Some(sub.block))]
  }

  lemma GatherStep(lt: (H256, H256) -> bool, s: State, sub: Submission, k: nat)
    requires JoinsAt(s.maps, sub) && IsFirst(lt, sub.root, s.maps.messages.Keys)
    requires k < 5 && s.asm == GatherAsm(s.maps, sub, k)
    ensures Enabled(lt, s, GatherSteps(sub)[k])
    ensures Apply(lt, s, GatherSteps(sub)[k]) == s.(asm := GatherAsm(s.maps, sub, k + 1))
  {
  }

  lemma {:induction false} GatherRun(
    lt: (H256, H256) -> bool, states: seq<State>, steps: seq<Step>, sub: Submission, k: nat)
    returns (states': seq<State>, steps': seq<Step>)
    requires ValidRun(lt, states, steps) && states[|steps|].asm.Idle? && k <= 5
    requires JoinsAt(states[|steps|].maps, sub) && IsFirst(lt, sub.root, states[|steps|].maps.messages.Keys)
    ensures ValidRun(lt, states', steps') && states <= states' && steps' == steps + GatherSteps(sub)[..k]
    ensures var last := states[|steps|]; states'[|steps'|] == last.(asm := GatherAsm(last.maps, sub, k))
  {
    if k == 0 {
      states', steps' := states, steps;
    } else {
      var states1, steps1 := GatherRun(lt, states, steps, sub, k - 1);
      GatherStep(lt, states1[|steps1|], sub, k - 1);
      states', steps' := ExtendRun(lt, states1, steps1, GatherSteps(sub)[k - 1]);
    }
  }

  /** Progress: from any reachable state in which the assembler is idle and the first pending root has
      a join, seven steps of the assembler consume that root and submit the join. */
  lemma AssembleRun(lt: (H256, H256) -> bool, states: seq<State>, steps: seq<Step>, sub: Submission)
    returns (states': seq<State>, steps': seq<Step>)
    requires ValidRun(lt, states, steps) && states[|steps|].asm.Idle?
    requires JoinsAt(states[|steps|].maps, sub) && IsFirst(lt, sub.root, states[|steps|].maps.messages.Keys)
    ensures ValidRun(lt, states', steps') && states <= states'
    ensures steps' == steps + GatherSteps(sub) + [AsmRemove(false), AsmSubmit(true)]
    ensures var (last, end) := (states[|steps|], states'[|steps'|]);
            && end.submitted == last.submitted + [sub] && end.asm.Idle? && end.relay == last.relay && end.para == last.para
            && end.maps == last.maps.(messages := last.maps.messages - {sub.root})
  {
    states', steps' := GatherRun(lt, states, steps, sub, 5);
    states', steps' := ExtendRun(lt, states', steps', AsmRemove(false));
    states', steps' := ExtendRun(lt, states', steps', AsmSubmit(true));
  }

  // All pending roots.

  ghost predicate TotalOrder(lt: (H256, H256) -> bool) {
    && (forall a, b :: lt(a, b) ==> !lt(b, a))
    && (forall a, b :: a == b || lt(a, b) || lt(b, a))
    && (forall a, b, c :: lt(a, b) && lt(b, c) ==> lt(a, c))
  }

  /** Some key comes first. */
  lemma {:induction false} FirstExists(lt: (H256, H256) -> bool, keys: set<H256>) returns (first: H256)
    requires TotalOrder(lt) && keys != {}
    ensures IsFirst(lt, first, keys)
    decreases |keys|
  {
    first :| first in keys;
    if keys != {first} {
      var rest := FirstExists(lt, keys - {first});
      first := if lt(rest, first) then rest else first;
    }
  }

  /** Removing another root leaves a join as it is. */
  lemma JoinSurvivesRemoval(m: Maps, root: H256, r: H256)
    requires r != root && HasJoin(m, r)
    ensures HasJoin(m.(messages := m.messages - {root}), r)
  {
    var sub: Submission :| sub.root == r && JoinsAt(m, sub);
    assert JoinsAt(m.(messages := m.messages - {root}), sub);
  }

  ghost predicate AllJoined(m: Maps) {
    forall r :: r in m.messages ==> HasJoin(m, r)
  }

  lemma AllJoinedSurvivesRemoval(m: Maps, root: H256)
    requires AllJoined(m)
    ensures AllJoined(m.(messages := m.messages - {root}))
  {
    forall r | r in m.messages - {root}
      ensures HasJoin(m.(messages := m.messages - {root}), r)
    {
      JoinSurvivesRemoval(m, root, r);
    }
  }

  /** The later submissions are joins of the maps `m`, one for each pending root and no other. */
  predicate Drained(m: Maps, before: seq<Submission>, after: seq<Submission>) {
    && before <= after
    && (forall k :: |before| <= k < |after| ==> JoinsAt(m, after[k]))
    && forall r :: r in m.messages ==> SubmissionsFor(after, r) == SubmissionsFor(before, r) + 1
  }

  /** One root is submitted, then the rest. */
  lemma DrainedByOne(m: Maps, sub: Submission, before: seq<Submission>, after: seq<Submission>)
    requires JoinsAt(m, sub)
    requires Drained(m.(messages := m.messages - {sub.root}), before + [sub], after)
    requires SubmissionsFor(after, sub.root) == SubmissionsFor(before + [sub], sub.root)
    ensures Drained(m, before, after)
  {
    assert (before + [sub])[..|before|] == before;
    forall k | |before| <= k < |after|
      ensures JoinsAt(m, after[k])
    {
      if k == |before| {
        assert after[k] == (before + [sub])[k];
      }
    }
  }

  /** Submissions for roots that were not pending do not change. */
  lemma {:induction false} OthersNotSubmitted(m: Maps, before: seq<Submission>, after: seq<Submission>, r: H256)
    requires before <= after && r !in m.messages
    requires forall k :: |before| <= k < |after| ==> JoinsAt(m, after[k])
    ensures SubmissionsFor(after, r) == SubmissionsFor(before, r)
    decreases |after|
  {
    if |before| < |after| {
      OthersNotSubmitted(m, before, after[..|after| - 1], r);
    } else {
      assert before == after;
    }
  }

  /** The run goes on with steps of the assembler only. */
  predicate AsmExtends(states: seq<State>, steps: seq<Step>, states': seq<State>, steps': seq<Step>) {
    states <= states' && steps <= steps' && forall p :: |steps| <= p < |steps'| ==> IsAsmStep(steps'[p])
  }

  lemma AsmExtendsTransitive(
    states: seq<State>, steps: seq<Step>, states1: seq<State>, steps1: seq<Step>, states2: seq<State>, steps2: seq<Step>)
    requires AsmExtends(states, steps, states1, steps1) && AsmExtends(states1, steps1, states2, steps2)
    ensures AsmExtends(states, steps, states2, steps2)
  {
    forall p | |steps| <= p < |steps2|
      ensures IsAsmStep(steps2[p])
    {
      if p < |steps1| {
        assert steps2[p] == steps1[p];
      }
    }
  }

  lemma AssembleStepsExtend(states: seq<State>, steps: seq<Step>, states': seq<State>, sub: Submission)
    requires states <= states'
    ensures AsmExtends(states, steps, states', steps + GatherSteps(sub) + [AsmRemove(false), AsmSubmit(true)])
  {
  }

  /** One pending root with a join is submitted, and the others keep theirs. */
  lemma DrainOne(lt: (H256, H256) -> bool, states: seq<State>, steps: seq<Step>)
    returns (states': seq<State>, steps': seq<Step>, sub: Submission)
    requires TotalOrder(lt) && ValidRun(lt, states, steps) && states[|steps|].asm.Idle?
    requires AllJoined(states[|steps|].maps) && states[|steps|].maps.messages != map[]
    ensures ValidRun(lt, states', steps') && AsmExtends(states, steps, states', steps')
    ensures var (last, end) := (states[|steps|], states'[|steps'|]);
            && sub.root in last.maps.messages && JoinsAt(last.maps, sub)
            && end.asm.Idle? && end.submitted == last.submitted + [sub] && AllJoined(end.maps)
            && end.maps == last.maps.(messages := last.maps.messages - {sub.root})
  {
    var m := states[|steps|].maps;
    var first := FirstExists(lt, m.messages.Keys);
    sub :| sub.root == first && JoinsAt(m, sub);
    states', steps' := AssembleRun(lt, states, steps, sub);
    AssembleStepsExtend(states, steps, states', sub);
    AllJoinedSurvivesRemoval(m, first);
  }

  /** Progress for all pending roots: if each of them has a join and the keys are totally ordered, then
      from any reachable state in which the assembler is idle, steps of the assembler alone leave nothing
      pending and make exactly one submission, the join, for each pending root and none for another. */
  lemma {:induction false} DrainRun(lt: (H256, H256) -> bool, states: seq<State>, steps: seq<Step>)
    returns (states': seq<State>, steps': seq<Step>)
    requires TotalOrder(lt) && ValidRun(lt, states, steps)
    requires states[|steps|].asm.Idle? && AllJoined(states[|steps|].maps)
    ensures ValidRun(lt, states', steps') && AsmExtends(states, steps, states', steps')
    ensures var (last, end) := (states[|steps|], states'[|steps'|]);
            && end.asm.Idle? && end.maps.messages == map[]
            && Drained(last.maps, last.submitted, end.submitted)
    decreases |states[|steps|].maps.messages|
  {
    var last := states[|steps|];
    if last.maps.messages == map[] {
      states', steps' := states, steps;
    } else {
      var states1, steps1, sub := DrainOne(lt, states, steps);
      RemovalShrinks(last.maps.messages, sub.root);
      states', steps' := DrainRun(lt, states1, steps1);
      AsmExtendsTransitive(states, steps, states1, steps1, states', steps');
      var (m, subs, end) := (states1[|steps1|].maps, states1[|steps1|].submitted, states'[|steps'|].submitted);
      OthersNotSubmitted(m, subs, end, sub.root);
      DrainedByOne(last.maps, sub, last.submitted, end);
    }
  }

  lemma RemovalShrinks(messages: map<H256, LeavesProof>, r: H256)
    requires r in messages
    ensures |messages - {r}| < |messages|
  {
    assert (messages - {r}).Keys == messages.Keys - {r};
    assert |(messages - {r}).Keys| == |messages - {r}| && |messages.Keys| == |messages|;
  }

  // The collectors' side.

  /** The parachain collector files a message and its channel proof. */
  function ParaSteps(root: H256, msg: LeavesProof, c: ChannelMerkleProof): seq<Step> {
    [ParaMessage(false, Some(root), Some(msg)), ParaChannel(false, Some(c)), ParaCheck(false), ParaStore(false)]
  }

  /** The first two steps: the message and the channel proof are received. */
  lemma ReceiveRun(
    lt: (H256, H256) -> bool, states: seq<State>, steps: seq<Step>, root: H256, msg: LeavesProof, c: ChannelMerkleProof)
    returns (states': seq<State>, steps': seq<Step>)
    requires ValidRun(lt, states, steps) && states[|steps|].para.AwaitParaBlock?
    ensures ValidRun(lt, states', steps') && states <= states' && steps' == steps + ParaSteps(root, msg, c)[..2]
    ensures states'[|steps| + 1].para == AwaitChannelProof(root)
    ensures var (last, m, end) := (states[|steps|], states[|steps|].maps, states'[|steps'|]);
            && end.para == CheckRootKnown(root, c)
            && end.relay == last.relay && end.asm == last.asm && end.submitted == last.submitted
            && end.maps == m.(messages := m.messages[root := msg], channelRoots := m.channelRoots[c.root := c])
  {
    states', steps' := ExtendRun(lt, states, steps, ParaMessage(false, Some(root), Some(msg)));
    states', steps' := ExtendRun(lt, states', steps', ParaChannel(false, Some(c)));
  }

  lemma ParaRun(
    lt: (H256, H256) -> bool, states: seq<State>, steps: seq<Step>, root: H256, msg: LeavesProof, c: ChannelMerkleProof)
    returns (states': seq<State>, steps': seq<Step>)
    requires ValidRun(lt, states, steps) && states[|steps|].para.AwaitParaBlock? && c.leaf == root
    ensures ValidRun(lt, states', steps') && states <= states' && steps' == steps + ParaSteps(root, msg, c)
    ensures states'[|steps| + 1].para == AwaitChannelProof(root)
    ensures var (last, m, end) := (states[|steps|], states[|steps|].maps, states'[|steps'|]);
            && end.relay == last.relay && end.para == last.para && end.asm == last.asm && end.submitted == last.submitted
            && end.maps == Maps(m.beefy, m.heads, m.messages[root := msg], m.channels[root := c],
                                m.channelRoots[c.root := c])
  {
    states', steps' := ReceiveRun(lt, states, steps, root, msg, c);
    states', steps' := ExtendRun(lt, states', steps', ParaCheck(false));
    states', steps' := ExtendRun(lt, states', steps', ParaStore(false));
  }

  /** The relay collector files a Beefy proof and a head proof. */
  function RelaySteps(a: RelayAnswer, h: ParaMerkleProof): seq<Step> {
    [RelayBeefy(false, a), RelayHead(false, Some(h))]
  }

  lemma RelayRun(
    lt: (H256, H256) -> bool, states: seq<State>, steps: seq<Step>, a: RelayAnswer, h: ParaMerkleProof, c: H256)
    returns (states': seq<State>, steps': seq<Step>)
    requires ValidRun(lt, states, steps) && states[|steps|].relay.AwaitRelayBlock?
    requires a.root.Some? && a.header.Some? && a.proof.Some? && LeafExtraOf(a.proof.value) == Some(h.root)
    requires HeadKey(Some(h)) == Some(c)
    ensures ValidRun(lt, states', steps') && states <= states' && steps' == steps + RelaySteps(a, h)
    ensures var (last, m, end) := (states[|steps|], states[|steps|].maps, states'[|steps'|]);
            && end.relay == last.relay && end.para == last.para && end.asm == last.asm && end.submitted == last.submitted
            && end.maps == m.(beefy := m.beefy[(h.root, a.number) := (a.root.value, a.proof.value)],
                              heads := m.heads[c := h])
  {
    states', steps' := ExtendRun(lt, states, steps, RelayBeefy(false, a));
    states', steps' := ExtendRun(lt, states', steps', RelayHead(false, Some(h)));
  }

  /** The answers chain up to a join. */
  predicate AnswersJoin(root: H256, msg: LeavesProof, c: ChannelMerkleProof, a: RelayAnswer, h: ParaMerkleProof) {
    && Decodes(msg) && c.leaf == root
    && a.root.Some? && a.header.Some? && a.proof.Some? && Decodes(a.proof.value)
    && LeafExtraOf(a.proof.value) == Some(h.root) && HeadKey(Some(h)) == Some(c.root)
  }

  /** The submission assembled from these answers. */
  function JoinOf(root: H256, msg: LeavesProof, c: ChannelMerkleProof, a: RelayAnswer, h: ParaMerkleProof): Submission
    requires AnswersJoin(root, msg, c, a, h)
  {
    Submission(root, a.number, XcmpProof(Parts(a.proof.value), h, c, Parts(msg)), a.root.value)
  }

  /** Both collectors file answers that chain up, in any state without Beefy entries: a join is stored. */
  lemma CollectRun(
    lt: (H256, H256) -> bool, states: seq<State>, steps: seq<Step>,
    root: H256, msg: LeavesProof, c: ChannelMerkleProof, a: RelayAnswer, h: ParaMerkleProof)
    returns (states': seq<State>, steps': seq<Step>)
    requires ValidRun(lt, states, steps) && AnswersJoin(root, msg, c, a, h)
    requires var last := states[|steps|];
             last.para.AwaitParaBlock? && last.relay.AwaitRelayBlock? && last.maps.beefy == map[]
    ensures ValidRun(lt, states', steps') && states <= states'
    ensures steps' == steps + ParaSteps(root, msg, c) + RelaySteps(a, h)
    ensures states'[|steps| + 1].para == AwaitChannelProof(root)
    ensures var (last, end) := (states[|steps|], states'[|steps'|]);
            && end.asm == last.asm && end.submitted == last.submitted && JoinsAt(end.maps, JoinOf(root, msg, c, a, h))
            && end.maps.messages == last.maps.messages[root := msg] && end.maps.channels == last.maps.channels[root := c]
  {
    var states1, steps1 := ParaRun(lt, states, steps, root, msg, c);
    states', steps' := RelayRun(lt, states1, steps1, a, h, c.root);
    assert states'[|steps| + 1] == states1[|steps| + 1];
  }

  function DeliverySteps(root: H256, msg: LeavesProof, c: ChannelMerkleProof, a: RelayAnswer, h: ParaMerkleProof): seq<Step>
    requires AnswersJoin(root, msg, c, a, h)
  {
    ParaSteps(root, msg, c) + RelaySteps(a, h) + GatherSteps(JoinOf(root, msg, c, a, h))
    + [AsmRemove(false), AsmSubmit(true)]
  }

  /** Answers that chain up can be collected and submitted from the empty maps. */
  lemma DeliveryRun(
    lt: (H256, H256) -> bool, root: H256, msg: LeavesProof, c: ChannelMerkleProof, a: RelayAnswer, h: ParaMerkleProof)
    returns (states: seq<State>)
    requires AnswersJoin(root, msg, c, a, h)
    ensures var steps := DeliverySteps(root, msg, c, a, h);
            && ValidRun(lt, states, steps) && states[1].para == AwaitChannelProof(root)
            && states[|steps|].submitted == [JoinOf(root, msg, c, a, h)] && root !in states[|steps|].maps.messages
  {
    var states1, steps1 := CollectRun(lt, [INITIAL], [], root, msg, c, a, h);
    var states2, steps2 := AssembleRun(lt, states1, steps1, JoinOf(root, msg, c, a, h));
    assert states2[1] == states1[1];
    assert steps2 == DeliverySteps(root, msg, c, a, h);
    states := states2;
  }

  lemma {:induction false} CollectionsAppend(steps: seq<Step>, more: seq<Step>, r: H256)
    ensures Collections(steps + more, r) == Collections(steps, r) + Collections(more, r)
  {
    if more == [] {
      assert steps + more == steps;
    } else {
      CollectionsAppend(steps, more[..|more| - 1], r);
      assert (steps + more)[..|steps + more| - 1] == steps + more[..|more| - 1];
    }
  }

  lemma {:induction false} NothingCollected(steps: seq<Step>, r: H256)
    requires forall p :: 0 <= p < |steps| ==> !Collects(steps[p], r)
    ensures Collections(steps, r) == 0
  {
    if steps != [] {
      NothingCollected(steps[..|steps| - 1], r);
    }
  }

  lemma ParaStepsCollect(root: H256, msg: LeavesProof, c: ChannelMerkleProof)
    ensures Collections(ParaSteps(root, msg, c), root) == 1
  {
    var first, rest := ParaSteps(root, msg, c)[..1], ParaSteps(root, msg, c)[1..];
    assert ParaSteps(root, msg, c) == first + rest;
    CollectionsAppend(first, rest, root);
    NothingCollected(rest, root);
  }

  /** Between two rounds: both collectors wait, nothing is pending, and with the message and its channel
      proof the join would be complete. */
  predicate Rested(s: State, sub: Submission, msg: LeavesProof) {
    && s.relay.AwaitRelayBlock? && s.para.AwaitParaBlock? && s.asm.Idle? && s.maps.messages == map[]
    && JoinsAt(s.maps.(messages := map[sub.root := msg], channels := s.maps.channels[sub.root := sub.xcmp.stage3]), sub)
  }

  /** Collecting a root again and assembling again submits it again. */
  lemma AnotherRound(
    lt: (H256, H256) -> bool, states: seq<State>, steps: seq<Step>, sub: Submission, msg: LeavesProof)
    returns (states': seq<State>, steps': seq<Step>)
    requires ValidRun(lt, states, steps) && Rested(states[|steps|], sub, msg) && sub.xcmp.stage3.leaf == sub.root
    ensures ValidRun(lt, states', steps') && Rested(states'[|steps'|], sub, msg)
    ensures states'[|steps'|].submitted == states[|steps|].submitted + [sub]
    ensures steps' == steps + ParaSteps(sub.root, msg, sub.xcmp.stage3) + GatherSteps(sub)
                      + [AsmRemove(false), AsmSubmit(true)]
  {
    var states1, steps1 := ParaRun(lt, states, steps, sub.root, msg, sub.xcmp.stage3);
    assert states1[|steps1|].maps.messages == map[sub.root := msg];
    states', steps' := AssembleRun(lt, states1, steps1, sub);
    assert states'[|steps'|].maps.messages == map[];
  }

  lemma RoundCollectsOnce(steps: seq<Step>, sub: Submission, msg: LeavesProof, c: ChannelMerkleProof)
    ensures Collections(steps + ParaSteps(sub.root, msg, c) + GatherSteps(sub) + [AsmRemove(false), AsmSubmit(true)],
                        sub.root)
            == Collections(steps, sub.root) + 1
  {
    var para, asm := ParaSteps(sub.root, msg, c), GatherSteps(sub) + [AsmRemove(false), AsmSubmit(true)];
    assert steps + para + GatherSteps(sub) + [AsmRemove(false), AsmSubmit(true)] == steps + para + asm;
    CollectionsAppend(steps + para, asm, sub.root);
    CollectionsAppend(steps, para, sub.root);
    ParaStepsCollect(sub.root, msg, c);
    NothingCollected(asm, sub.root);
  }

  /** The bound is reached: for answers that chain up and any number of rounds, there is a run that collects
      the root in each round and submits it as often. */
  lemma {:induction false} EachCollectionCanBeSubmitted(
    lt: (H256, H256) -> bool, root: H256, msg: LeavesProof, c: ChannelMerkleProof, a: RelayAnswer, h: ParaMerkleProof,
    rounds: nat)
    returns (states: seq<State>, steps: seq<Step>)
    requires AnswersJoin(root, msg, c, a, h)
    ensures ValidRun(lt, states, steps) && Rested(states[|steps|], JoinOf(root, msg, c, a, h), msg)
    ensures Collections(steps, root) == SubmissionsFor(states[|steps|].submitted, root) == rounds
  {
    var sub := JoinOf(root, msg, c, a, h);
    if rounds == 0 {
      states, steps := RelayRun(lt, [INITIAL], [], a, h, c.root);
      NothingCollected(steps, root);
    } else {
      var states1, steps1 := EachCollectionCanBeSubmitted(lt, root, msg, c, a, h, rounds - 1);
      states, steps := AnotherRound(lt, states1, steps1, sub, msg);
      RoundCollectsOnce(steps1, sub, msg, c);
      var before := states1[|steps1|].submitted;
      assert (before + [sub])[..|before|] == before;
    }
  }

  /** A lost lock is enough to leave the first root without a channel proof. */
  lemma MessageOnlyRun(lt: (H256, H256) -> bool, root: H256, msg: LeavesProof, c: ChannelMerkleProof)
    returns (states: seq<State>, steps: seq<Step>)
    ensures ValidRun(lt, states, steps)
    ensures var (m, end) := (states[|steps|].maps, states[|steps|]);
            && m.messages == map[root := msg] && m.channels == map[] && m.beefy == map[]
            && end.relay.AwaitRelayBlock? && end.para.AwaitParaBlock? && end.asm.Idle? && end.submitted == []
  {
    states, steps := ReceiveRun(lt, [INITIAL], [], root, msg, c);
    states, steps := ExtendRun(lt, states, steps, ParaCheck(true));
  }

  /** There is a run in which a complete root waits behind a root that comes first and has no channel
      proof, and an attempt of the assembler that changes nothing. */
  lemma SecondRootWaits(
    lt: (H256, H256) -> bool, first: H256, msg1: LeavesProof, c1: ChannelMerkleProof,
    second: H256, msg: LeavesProof, c: ChannelMerkleProof, a: RelayAnswer, h: ParaMerkleProof)
    returns (states: seq<State>, steps: seq<Step>)
    requires lt(first, second) && first != second && AnswersJoin(second, msg, c, a, h)
    ensures ValidRun(lt, states, steps) && |steps| >= 2 && steps[|steps| - 2..] == [AsmPick(false, first), AsmMatch(false)]
    ensures var s := states[|steps|];
            && IsFirst(lt, first, s.maps.messages.Keys) && first !in s.maps.channels
            && JoinsAt(s.maps, JoinOf(second, msg, c, a, h))
            && s.asm.Idle? && s.submitted == [] && s == states[|steps| - 2]
  {
    var states1, steps1 := MessageOnlyRun(lt, first, msg1, c1);
    var states2, steps2 := CollectRun(lt, states1, steps1, second, msg, c, a, h);
    var states3, steps3 := ExtendRun(lt, states2, steps2, AsmPick(false, first));
    states, steps := ExtendRun(lt, states3, steps3, AsmMatch(false));
  }
}

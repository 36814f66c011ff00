/** The relayer's tasks as code over the shared maps. Each method is one lock region of a task
    and refines the step of the state machine with the same name. */
module RelayerTasks {
  import opened Hashing
  import opened Codec
  import opened ProofTypes
  import opened Relayer
  import opened RelayerProgress
  import RelayerAnswers
  import Receiver

  type BeefyEntries = seq<((H256, nat), (H256, LeavesProof))>

  /** `entries` lists the messages in increasing key order. */
  ghost predicate MessagesInOrder(
    lt: (H256, H256) -> bool, messages: map<H256, LeavesProof>, entries: seq<(H256, LeavesProof)>)
  {
    && (forall i, j :: 0 <= i < j < |entries| ==> lt(entries[i].0, entries[j].0))
    && (forall i :: 0 <= i < |entries| ==> entries[i].0 in messages && messages[entries[i].0] == entries[i].1)
    && (forall k :: k in messages ==> (k, messages[k]) in entries)
  }

  /** The order of Beefy keys: by heads root, then by relay block number. */
  predicate KeyLess(lt: (H256, H256) -> bool, a: (H256, nat), b: (H256, nat)) {
    if a.0 == b.0 then a.1 < b.1 else lt(a.0, b.0)
  }

  /** `entries` lists the Beefy map in increasing key order. */
  ghost predicate BeefyInOrder(lt: (H256, H256) -> bool, beefy: BeefyMap, entries: BeefyEntries) {
    && (forall i, j :: 0 <= i < j < |entries| ==> KeyLess(lt, entries[i].0, entries[j].0))
    && (forall i :: 0 <= i < |entries| ==> entries[i].0 in beefy && beefy[entries[i].0] == entries[i].1)
    && (forall k :: k in beefy ==> (k, beefy[k]) in entries)
  }

  /** The last entry for a heads root in key order has the greatest relay block number of that root. */
  lemma LastMatchIsLatest(lt: (H256, H256) -> bool, beefy: BeefyMap, entries: BeefyEntries, headsRoot: H256, at: int)
    requires BeefyInOrder(lt, beefy, entries) && -1 <= at < |entries|
    requires forall i :: at < i < |entries| ==> entries[i].0.0 != headsRoot
    requires at >= 0 ==> entries[at].0.0 == headsRoot
    ensures at < 0 ==> IsLatest(beefy, headsRoot, None)
    ensures at >= 0 ==>
              IsLatest(beefy, headsRoot, Some(entries[at].0.1)) && beefy[(headsRoot, entries[at].0.1)] == entries[at].1
  {
    forall k | k in beefy && k.0 == headsRoot
      ensures at >= 0 && k.1 <= entries[at].0.1
    {
      var i :| 0 <= i < |entries| && entries[i] == (k, beefy[k]);
      assert i < at ==> KeyLess(lt, entries[i].0, entries[at].0);
    }
  }

  /** Filters the iterated entries by heads root and takes the last one: it is the entry with the
      greatest relay block number filed for that root, for any contents of the map. */
  method SelectLatest(ghost lt: (H256, H256) -> bool, ghost beefy: BeefyMap, entries: BeefyEntries, headsRoot: H256)
    returns (latest: Option<nat>, value: Option<(H256, LeavesProof)>)
    requires BeefyInOrder(lt, beefy, entries)
    ensures IsLatest(beefy, headsRoot, latest)
    ensures latest.None? ==> forall k :: k in beefy ==> k.0 != headsRoot
    ensures latest.Some? ==>
              (headsRoot, latest.value) in beefy && forall k :: k in beefy && k.0 == headsRoot ==> k.1 <= latest.value
    ensures value == if latest.Some? then Some(beefy[(headsRoot, latest.value)]) else None
  {
    var kept: BeefyEntries := [];
    ghost var at := -1;
    for n := 0 to |entries|
      invariant -1 <= at < n && (at < 0 <==> kept == [])
      invariant forall i :: at < i < n ==> entries[i].0.0 != headsRoot
      invariant at >= 0 ==> entries[at].0.0 == headsRoot && kept[|kept| - 1] == entries[at]
    {
      if entries[n].0.0 == headsRoot {
        kept := kept + [entries[n]];
        at := n;
      }
    }
    LastMatchIsLatest(lt, beefy, entries, headsRoot, at);
    if kept == [] {
      return None, None;
    }
    var last := kept[|kept| - 1];
    return Some(last.0.1), Some(last.1);
  }

  lemma FirstEntryIsFirst(
    lt: (H256, H256) -> bool, messages: map<H256, LeavesProof>, entries: seq<(H256, LeavesProof)>)
    requires MessagesInOrder(lt, messages, entries) && entries != []
    ensures IsFirst(lt, entries[0].0, messages.Keys)
  {
    forall j | j in messages
      ensures j == entries[0].0 || lt(entries[0].0, j)
    {
      var i :| 0 <= i < |entries| && entries[i] == (j, messages[j]);
    }
  }

  /** The shared maps and the positions of the three tasks. The ghost fields record the run so far:
      whatever a node goes through is a run of the state machine. */
  class RelayerNode {
    ghost const lt: (H256, H256) -> bool
    var beefy: BeefyMap
    var heads: map<H256, ParaMerkleProof>
    var messages: map<H256, LeavesProof>
    var channels: map<H256, ChannelMerkleProof>
    var channelRoots: map<H256, ChannelMerkleProof>
    var relay: RelayTask
    var para: ParaTask
    var asm: AsmTask
    var submitted: seq<Submission>
    ghost var log: seq<Entry>
    ghost var states: seq<State>
    ghost var steps: seq<Step>

    ghost function SharedMaps(): Maps
      reads this
    {
      Maps(beefy, heads, messages, channels, channelRoots)
    }

    ghost function View(): State
      reads this
    {
      State(SharedMaps(), relay, para, asm, submitted, log)
    }

    ghost predicate Valid()
      reads this
    {
      ValidRun(lt, states, steps) && states[|steps|] == View()
    }

    constructor (ghost order: (H256, H256) -> bool)
      ensures Valid() && lt == order && View() == INITIAL && steps == []
    {
      lt := order;
      beefy, heads, messages, channels, channelRoots := map[], map[], map[], map[], map[];
      relay, para, asm, submitted := AwaitRelayBlock, AwaitParaBlock, Idle, [];
      log, states, steps := [], [INITIAL], [];
    }

    /** Appends a step that the fields have just taken to the record. */
    ghost method Record(step: Step)
      requires ValidRun(lt, states, steps) && Enabled(lt, states[|steps|], step)
      requires View() == Apply(lt, states[|steps|], step)
      modifies this`states, this`steps
      ensures Valid() && steps == old(steps) + [step] && states == old(states) + [View()]
    {
      states, steps := ExtendRun(lt, states, steps, step);
    }

    /** A node always has keyed maps, and its assembler holds chained values. */
    lemma NodeIsKeyed()
      requires Valid()
      ensures MapsKeyed(View()) && Chained(View())
    {
      JoinKeysAlways(lt, states, steps, |steps|);
    }

    /** Every insertion of a message root into a node is pending or was removed once, and every removal is a
        submission, a loss on a node error, or in flight. */
    lemma NodeConserves(r: H256)
      requires Valid()
      ensures InsertionsConserved(View(), r) && RemovalsConserved(View(), r)
    {
      ConservedAlways(lt, states, steps, |steps|, r);
    }

    /** If all answers so far were consistent, every stored proof verifies, and every submission of the
        node is accepted by every chain that has seen its Beefy root. */
    lemma NodeSubmitsAcceptable(seen: set<H256>)
      requires Valid() && forall j :: 0 <= j < |steps| ==> RelayerAnswers.Consistent(states[j], steps[j])
      ensures RelayerAnswers.GoodMaps(SharedMaps())
      ensures forall k :: 0 <= k < |submitted| && submitted[k].beefyRoot in seen ==>
                Receiver.Accepts(seen, submitted[k].xcmp, submitted[k].beefyRoot)
    {
      RelayerAnswers.GoodAlways(lt, states, steps, |steps|, seen);
    }

    // ---------------------------------------------------------------- relay collector

    method CollectBeefy(busy: bool, a: RelayAnswer)
      requires Valid() && relay.AwaitRelayBlock?
      modifies this
      ensures Valid() && steps == old(steps) + [RelayBeefy(busy, a)]
      ensures View() == ApplyRelayBeefy(old(View()), busy, a)
    {
      relay := RelayEnded;
      if a.root.Some? && a.header.Some? && a.proof.Some? {
        var (root, proof) := (a.root.value, a.proof.value);
        if proof.leaves.Encoded? && proof.leaves.value != [] {
          var leaf := DecodeBeefyLeaf(proof.leaves.value[0]);
          if leaf.Some? {
            if !busy {
              beefy := beefy[(leaf.value.leafExtra, a.number) := (root, proof)];
            }
            relay := AwaitHeadProof(a.number);
          }
        }
      }
      Record(RelayBeefy(busy, a));
    }

    method CollectHead(busy: bool, head: Option<ParaMerkleProof>)
      requires Valid() && relay.AwaitHeadProof?
      modifies this
      ensures Valid() && steps == old(steps) + [RelayHead(busy, head)]
      ensures View() == ApplyRelayHead(old(View()), busy, head)
    {
      relay := RelayEnded;
      if head.Some? {
        var extracted := Receiver.ExtractXcmpChannelRoot(head.value.leaf);
        var root := match extracted case Extracted(r) => r case NotExtracted(_) => Zero;
        if root != Zero {
          if !busy {
            heads := heads[root := head.value];
          }
          relay := AwaitRelayBlock;
        }
      }
      Record(RelayHead(busy, head));
    }

    // ---------------------------------------------------------------- parachain collector

    method CollectMessage(busy: bool, root: Option<H256>, proof: Option<LeavesProof>)
      requires Valid() && para.AwaitParaBlock?
      modifies this
      ensures Valid() && steps == old(steps) + [ParaMessage(busy, root, proof)]
      ensures View() == ApplyParaMessage(old(View()), busy, root, proof)
    {
      if root.None? || proof.None? {
        para := ParaEnded;
      } else {
        if !busy {
          if root.value !in messages {
            log := log + [Entry(InsertedRoot, root.value)];
          }
          messages := messages[root.value := proof.value];
        }
        para := AwaitChannelProof(root.value);
      }
      Record(ParaMessage(busy, root, proof));
    }

    method CollectChannel(busy: bool, channel: Option<ChannelMerkleProof>)
      requires Valid() && para.AwaitChannelProof?
      modifies this
      ensures Valid() && steps == old(steps) + [ParaChannel(busy, channel)]
      ensures View() == ApplyParaChannel(old(View()), busy, channel)
    {
      if channel.None? {
        para := ParaEnded;
      } else {
        if !busy {
          channelRoots := channelRoots[channel.value.root := channel.value];
        }
        para := CheckRootKnown(para.msgRoot, channel.value);
      }
      Record(ParaChannel(busy, channel));
    }

    method CheckMessageRoot(busy: bool)
      requires Valid() && para.CheckRootKnown?
      modifies this`para, this`states, this`steps
      ensures Valid() && steps == old(steps) + [ParaCheck(busy)]
      ensures View() == ApplyParaCheck(old(View()), busy)
    {
      var rootsMatch := false;
      if !busy {
        rootsMatch := para.channel.leaf in messages;
      }
      para := if rootsMatch then StoreChannelProof(para.msgRoot, para.channel) else AwaitParaBlock;
      Record(ParaCheck(busy));
    }

    method StoreChannel(busy: bool)
      requires Valid() && para.StoreChannelProof?
      modifies this
      ensures Valid() && steps == old(steps) + [ParaStore(busy)]
      ensures View() == ApplyParaStore(old(View()), busy)
    {
      if !busy {
        channels := channels[para.msgRoot := para.channel];
      }
      para := AwaitParaBlock;
      Record(ParaStore(busy));
    }

    // ---------------------------------------------------------------- assembler

    /** Takes the first message root in iteration order. */
    method PickMessage(busy: bool, entries: seq<(H256, LeavesProof)>) returns (first: H256)
      requires Valid() && asm.Idle? && MessagesInOrder(lt, messages, entries)
      modifies this`asm, this`states, this`steps
      ensures Valid() && steps == old(steps) + [AsmPick(busy, first)]
      ensures !busy && messages != map[] ==> IsFirst(lt, first, messages.Keys)
      ensures !busy && messages != map[] ==>
                asm == Picked(first, messages[first]) && forall j :: j in messages ==> j == first || lt(first, j)
      ensures View() == ApplyAsmPick(old(View()), busy, first)
    {
      first := Zero;
      if !busy && entries != [] {
        first := entries[0].0;
        FirstEntryIsFirst(lt, messages, entries);
        asm := Picked(first, entries[0].1);
      }
      assert entries == [] ==> messages == map[];
      Record(AsmPick(busy, first));
    }

    method MatchChannel(busy: bool)
      requires Valid() && asm.Picked?
      modifies this`asm, this`states, this`steps
      ensures Valid() && steps == old(steps) + [AsmMatch(busy)]
      ensures View() == ApplyAsmMatch(old(View()), busy)
    {
      var root, proof := asm.root, asm.picked;
      var rootsMatch := false;
      if !busy {
        rootsMatch := root in channels;
      }
      if rootsMatch && proof.leaves.Encoded? && proof.proof.Encoded? {
        asm := Matched(root, (proof.proof.value, proof.leaves.value));
      } else {
        asm := Idle;
      }
      Record(AsmMatch(busy));
    }

    method LookupChannel(busy: bool)
      requires Valid() && asm.Matched?
      modifies this`asm, this`states, this`steps
      ensures Valid() && steps == old(steps) + [AsmChannel(busy)]
      ensures View() == ApplyAsmChannel(old(View()), busy)
    {
      if busy || asm.root !in channels {
        asm := Idle;
      } else {
        asm := GotChannel(asm.root, asm.stage4, channels[asm.root]);
      }
      Record(AsmChannel(busy));
    }

    method LookupHead(busy: bool)
      requires Valid() && asm.GotChannel?
      modifies this`asm, this`states, this`steps
      ensures Valid() && steps == old(steps) + [AsmHead(busy)]
      ensures View() == ApplyAsmHead(old(View()), busy)
    {
      if busy || asm.channel.root !in heads {
        asm := Idle;
      } else {
        asm := GotHead(asm.root, asm.stage4, asm.channel, heads[asm.channel.root]);
      }
      Record(AsmHead(busy));
    }

    method LookupBeefy(busy: bool, entries: BeefyEntries) returns (latest: Option<nat>)
      requires Valid() && asm.GotHead? && BeefyInOrder(lt, beefy, entries)
      modifies this`asm, this`states, this`steps
      ensures Valid() && steps == old(steps) + [AsmBeefy(busy, latest)]
      ensures busy || IsLatest(beefy, old(asm).head.root, latest)
      ensures View() == ApplyAsmBeefy(old(View()), busy, latest)
    {
      latest := None;
      var found: Option<(H256, LeavesProof)> := None;
      if !busy {
        latest, found := SelectLatest(lt, beefy, entries, asm.head.root);
      }
      if found.None? || found.value.1.leaves.Garbled? || found.value.1.proof.Garbled? {
        asm := Idle;
      } else {
        var (beefyRoot, proof) := found.value;
        var xcmp := XcmpProof((proof.proof.value, proof.leaves.value), asm.head, asm.channel, asm.stage4);
        asm := GotBeefy(Submission(asm.root, latest.value, xcmp, beefyRoot));
      }
      Record(AsmBeefy(busy, latest));
    }

    method RemoveMessage(busy: bool)
      requires Valid() && asm.GotBeefy?
      modifies this
      ensures Valid() && steps == old(steps) + [AsmRemove(busy)]
      ensures View() == ApplyAsmRemove(old(View()), busy)
    {
      var root := asm.sub.root;
      if busy || root !in messages {
        asm := Idle;
      } else {
        messages := messages - {root};
        log := log + [Entry(RemovedRoot, root)];
        asm := Removed(asm.sub);
      }
      Record(AsmRemove(busy));
    }

    method Submit(sent: bool)
      requires Valid() && asm.Removed?
      modifies this
      ensures Valid() && steps == old(steps) + [AsmSubmit(sent)]
      ensures View() == ApplyAsmSubmit(old(View()), sent)
    {
      if sent {
        submitted := submitted + [asm.sub];
      } else {
        log := log + [Entry(DroppedRoot, asm.sub.root)];
      }
      asm := Idle;
      Record(AsmSubmit(sent));
    }

    /** The lookups of an attempt with free locks and no step of a collector in between. They
        gather the join of the four maps at the first pending root, exactly when it exists. */
    method GatherProof(pending: seq<(H256, LeavesProof)>, entries: BeefyEntries) returns (gathered: bool, first: H256)
      requires Valid() && asm.Idle? && MessagesInOrder(lt, messages, pending) && BeefyInOrder(lt, beefy, entries)
      modifies this`asm, this`states, this`steps
      ensures Valid()
      ensures messages != map[] ==> IsFirst(lt, first, messages.Keys)
      ensures gathered <==> messages != map[] && HasJoin(SharedMaps(), first)
      ensures gathered ==> asm.GotBeefy? && asm.sub.root == first && JoinsAt(SharedMaps(), asm.sub)
      ensures !gathered ==> asm.Idle?
    {
      first := PickMessage(false, pending);
      gathered := false;
      if asm.Picked? {
        MatchChannel(false);
        if asm.Matched? {
          gathered := FollowRoots(first, entries);
        } else {
          NoMatchNoJoin(SharedMaps(), first);
        }
      }
    }

    /** The lookups after the first membership check: by message root, by channel tree root, by heads root. */
    method FollowRoots(ghost first: H256, entries: BeefyEntries) returns (gathered: bool)
      requires Valid() && asm.Matched? && asm.root == first && MessageAt(SharedMaps(), first, asm.stage4)
      requires first in channels && BeefyInOrder(lt, beefy, entries)
      modifies this`asm, this`states, this`steps
      ensures Valid()
      ensures gathered <==> HasJoin(SharedMaps(), first)
      ensures gathered ==> asm.GotBeefy? && asm.sub.root == first && JoinsAt(SharedMaps(), asm.sub)
      ensures !gathered ==> asm.Idle?
    {
      LookupChannel(false);
      ghost var c := asm.channel;
      LookupHead(false);
      if asm.Idle? {
        NoHeadNoJoin(SharedMaps(), first, c);
        return false;
      }
      ghost var h := asm.head;
      var latest := LookupBeefy(false, entries);
      if asm.Idle? {
        NoBeefyNoJoin(SharedMaps(), first, c, h, latest);
        return false;
      }
      return true;
    }

    /** A whole attempt with free locks and no step of a collector in between: it consumes the
        first pending root and holds its join, or it changes nothing. */
    method GenerateXcmpProof(pending: seq<(H256, LeavesProof)>, entries: BeefyEntries)
      returns (assembled: bool, first: H256)
      requires Valid() && asm.Idle? && MessagesInOrder(lt, messages, pending) && BeefyInOrder(lt, beefy, entries)
      modifies this
      ensures Valid()
      ensures old(messages) != map[] ==> IsFirst(lt, first, old(messages).Keys)
      ensures assembled <==> old(messages) != map[] && HasJoin(old(SharedMaps()), first)
      ensures assembled ==>
                && asm.Removed? && asm.sub.root == first && JoinsAt(old(SharedMaps()), asm.sub)
                && SharedMaps() == old(SharedMaps()).(messages := old(messages) - {first})
      ensures !assembled ==> asm.Idle? && SharedMaps() == old(SharedMaps()) && log == old(log)
      ensures submitted == old(submitted)
    {
      assembled, first := GatherProof(pending, entries);
      if assembled {
        RemoveMessage(false);
      }
    }
  }
}

// Runs of the chain: submitting blocks one after the other (accept.go, chain.go).

module Runs {
  import opened BlockTree
  import opened Selection
  import opened Ledgers
  import opened Chain
  import opened Index

  /** What one call is given. */
  datatype Call = Call(block: Block, fastAdd: bool, contextOk: bool, faults: set<Hash>)

  /** The call gets as far as choosing the best chain for the node of its block, and meets
      an error there that is not a rule violation. */
  ghost predicate Faults<U(!new), J(!new)>(rules: Rules<U, J>, t: Tree, n: BlockNode, call: Call) {
    && t.tip.Wf() && NewNode(t, n) && n.block == call.block
    && !t.status[n.parent].KnownInvalid() && call.contextOk
    && MeetsFault(rules, call.faults, WithNode(t, n), n, call.fastAdd)
  }

  /** An indexed block that is not known to be invalid is the parent. */
  ghost predicate HasGoodParent(t: Tree, call: Call) {
    exists p :: p in t.status && p.block.hash == call.block.prev && !t.status[p].KnownInvalid()
  }

  ghost predicate HasParent(t: Tree, call: Call) {
    exists p :: p in t.status && p.block.hash == call.block.prev
  }

  /** What a call does: if its block has a parent that is not known to be invalid and
      follows the rules for its position, a node for the block is indexed and the best
      chain is chosen; if not, nothing changes and the reason is reported. */
  ghost predicate Performs(t: Tree, t': Tree, call: Call, e: Event) {
    if HasGoodParent(t, call) && call.contextOk then
      NewNode(t, e.n) && e.n.block == call.block && Step(t, t', e.n, e.result)
    else
      && t' == t && e.n in t.status
      && e.result == Rejected(if !HasParent(t, call) then PreviousBlockUnknown
                              else if !HasGoodParent(t, call) then InvalidAncestorBlock
                              else ContextRule)
  }

  /** Accepts one block.  If only branches with a known invalid block were heavier than
      the best chain before, then so it is afterwards, except exactly if the call meets an
      error that is not a rule violation. */
  method Accept<U(!new), J(!new)>(chain: BlockChain<U, J>, call: Call) returns (r: AcceptResult, ghost e: Event)
    requires chain.Valid() && Sound(chain.State()) && call.block.work > 0 && call.block.hash !in chain.index.index
    modifies chain, chain.bestChain, chain.bestChain.backing, chain.index, chain.index.Nodes()`status
    ensures chain.Valid() && Sound(chain.State()) && e.result == r
    ensures Performs(old(chain.State()), chain.State(), call, e)
    ensures chain.trusted == old(chain.trusted) + if call.fastAdd && e.n.parent == old(chain.bestChain.Tip()) && e.n !in old(chain.State()).status then {e.n} else {}
    ensures r == Rejected(Database) <==> Faults(chain.rules, old(chain.State()), e.n, call)
    ensures old(Heaviest(chain.State())) ==>
              (Heaviest(chain.State()) <==> !Faults(chain.rules, old(chain.State()), e.n, call))
    ensures chain.bestChain.backing == old(chain.bestChain.backing) || fresh(chain.bestChain.backing)
    ensures fresh(chain.index.Nodes() - old(chain.index.Nodes()))
  {
    hide BlockNode.Wf, TreeOk, StatusSound, Heaviest, MeetsFault, Choice, BlockIndex.Valid, HasParent, HasGoodParent;
    HashesAreKeys(chain);
    ghost var t := chain.State();
    TipValid(t);
    ParentByHash(chain, call);
    ghost var newNode;
    r, newNode := chain.MaybeAcceptBlock(call.block, call.fastAdd, call.contextOk, call.faults);
    HashesAreKeys(chain);
    e := Event(if newNode == null then t.tip else newNode, r);
    if newNode != null {
      StepKeepsSound(t, chain.State(), newNode, r);
      if Heaviest(t) {
        StepKeepsHeaviest(t, chain.State(), newNode, r);
      }
    }
  }

  lemma HashesAreKeys<U(!new), J(!new)>(chain: BlockChain<U, J>)
    requires chain.index.Valid()
    ensures forall h :: h in chain.index.index ==> chain.index.index[h] in chain.index.Nodes() && chain.index.index[h].block.hash == h
    ensures forall n :: n in chain.index.Nodes() ==> n.block.hash in chain.index.index
  {}

  /** The index finds the parent in the tree. */
  lemma ParentByHash<U(!new), J(!new)>(chain: BlockChain<U, J>, call: Call)
    requires chain.Valid()
    ensures var index := chain.index.index;
            && (HasParent(chain.State(), call) <==> call.block.prev in index)
            && (HasGoodParent(chain.State(), call) <==> call.block.prev in index && !index[call.block.prev].status.KnownInvalid())
  {
    var index, prev := chain.index, call.block.prev;
    HashesAreKeys(chain);
    if prev in index.index {
      index.StatusAt(index.index[prev]);
      assert index.index[prev] in chain.State().status;
    }
    forall p | p in chain.State().status && p.block.hash == prev ensures prev in index.index && index.index[prev] == p {}
  }

  /** What a call does is a transition. */
  lemma PerformsIsTransition(t: Tree, t': Tree, call: Call, e: Event)
    requires Performs(t, t', call, e)
    ensures Transition(t, t', e)
  {}

  /** The calls of a run: step k is what call k does. */
  ghost predicate Follows<U(!new), J(!new)>(rules: Rules<U, J>, calls: seq<Call>, ts: seq<Tree>, es: seq<Event>) {
    && Run(ts, es) && |calls| == |es|
    && forall k :: 0 <= k < |es| ==>
         && Performs(ts[k], ts[k + 1], calls[k], es[k])
         && (es[k].result == Rejected(Database) <==> Faults(rules, ts[k], es[k].n, calls[k]))
  }

  /** In every run, a state has no branch without known invalid blocks that is heavier
      than the best chain, if no call before it met an error that is not a rule
      violation. */
  lemma HeaviestWithoutFaults<U(!new), J(!new)>(rules: Rules<U, J>, calls: seq<Call>, ts: seq<Tree>, es: seq<Event>, i: nat)
    requires Follows(rules, calls, ts, es) && i < |ts|
    ensures Sound(ts[i])
    ensures (forall k :: 0 <= k < i ==> !Faults(rules, ts[k], es[k].n, calls[k])) ==> Heaviest(ts[i])
  {
    hide Faults, Sound, Heaviest, Transition, Initial, Performs;
    RunIsSound(ts, es, i);
  }

  lemma NoCalls<U(!new), J(!new)>(rules: Rules<U, J>, t: Tree)
    requires Initial(t)
    ensures Follows(rules, [], [t], []) && Sound(t) && Heaviest(t)
  {
    InitialIsSound(t);
  }

  lemma OneMoreCall<U(!new), J(!new)>(rules: Rules<U, J>, calls: seq<Call>, ts: seq<Tree>, es: seq<Event>, call: Call, t: Tree, e: Event)
    requires Follows(rules, calls, ts, es) && Performs(ts[|es|], t, call, e)
    requires e.result == Rejected(Database) <==> Faults(rules, ts[|es|], e.n, call)
    ensures Follows(rules, calls + [call], ts + [t], es + [e])
  {
    hide Faults, Transition, Initial, Performs;
    PerformsIsTransition(ts[|es|], t, call, e);
  }

  /** The chain is in the last state of a run with the given calls, and what it has
      trusted without a check was submitted to be. */
  ghost predicate AtEnd<U(!new), J(!new)>(chain: BlockChain<U, J>, rules: Rules<U, J>, calls: seq<Call>, ts: seq<Tree>, es: seq<Event>)
    reads chain, chain.index, chain.index.Nodes(), chain.bestChain, chain.bestChain.backing
  {
    && chain.Valid() && chain.rules == rules && Sound(chain.State())
    && Follows(rules, calls, ts, es) && ts[|es|] == chain.State()
    && Trusts(chain.trusted, calls, es)
  }

  /** Trusted blocks were submitted as such. */
  ghost predicate Trusts(trusted: set<BlockNode>, calls: seq<Call>, es: seq<Event>) {
    |calls| == |es| && forall n :: n in trusted ==> exists k :: 0 <= k < |es| && es[k].n == n && calls[k].fastAdd
  }

  lemma TrustsOneMore(trusted: set<BlockNode>, trusted': set<BlockNode>, calls: seq<Call>, es: seq<Event>, call: Call, e: Event)
    requires Trusts(trusted, calls, es) && trusted' <= trusted + if call.fastAdd then {e.n} else {}
    ensures Trusts(trusted', calls + [call], es + [e])
  {
    forall n | n in trusted' ensures exists k :: 0 <= k < |es + [e]| && (es + [e])[k].n == n && (calls + [call])[k].fastAdd {
      if n in trusted {
        var k :| 0 <= k < |es| && es[k].n == n && calls[k].fastAdd;
        assert (es + [e])[k].n == n && (calls + [call])[k].fastAdd;
      } else {
        assert (es + [e])[|es|].n == n;
      }
    }
  }

  ghost predicate Indexed(t: Tree, call: Call) {
    exists n :: n in t.status && n.block.hash == call.block.hash
  }

  lemma IndexedByHash<U(!new), J(!new)>(chain: BlockChain<U, J>, call: Call)
    requires chain.Valid()
    ensures Indexed(chain.State(), call) <==> call.block.hash in chain.index.index
  {
    var index, hash := chain.index, call.block.hash;
    HashesAreKeys(chain);
    if hash in index.index {
      assert index.index[hash] in chain.State().status;
    }
  }

  /** Submits one block, unless it is indexed already. */
  method Submit<U(!new), J(!new)>(chain: BlockChain<U, J>, call: Call, calls0: seq<Call>, ghost ts0: seq<Tree>, ghost es0: seq<Event>)
    returns (calls: seq<Call>, ghost ts: seq<Tree>, ghost es: seq<Event>)
    requires AtEnd(chain, chain.rules, calls0, ts0, es0) && call.block.work > 0 && |ts0| == |calls0| + 1
    modifies chain, chain.bestChain, chain.bestChain.backing, chain.index, chain.index.Nodes()`status
    ensures AtEnd(chain, chain.rules, calls, ts, es)
    ensures |ts| == |calls| + 1
    ensures Indexed(ts0[|calls0|], call) ==> calls == calls0 && ts == ts0 && es == es0
    ensures !Indexed(ts0[|calls0|], call) ==>
              calls == calls0 + [call] && |ts| == |ts0| + 1 && |es| == |es0| + 1 && ts[..|ts0|] == ts0 && es[..|es0|] == es0
    ensures chain.bestChain.backing == old(chain.bestChain.backing) || fresh(chain.bestChain.backing)
    ensures fresh(chain.index.Nodes() - old(chain.index.Nodes()))
  {
    hide Sound, Faults, Heaviest, Transition, Initial, BlockChain.Structure, BlockChain.Conserved, TreeOk, Performs, Trusts, Indexed;
    IndexedByHash(chain, call);
    calls, ts, es := calls0, ts0, es0;
    if call.block.hash !in chain.index.index {
      var r;
      ghost var e;
      r, e := Accept(chain, call);
      TrustsOneMore(old(chain.trusted), chain.trusted, calls, es, call, e);
      OneMoreCall(chain.rules, calls, ts, es, call, chain.State(), e);
      calls, ts, es := calls + [call], ts + [chain.State()], es + [e];
    }
  }

  /** The calls that are made: the submitted ones in order, but for those whose block is
      indexed already when its turn comes. */
  ghost predicate Kept(submitted: seq<Call>, calls: seq<Call>, ts: seq<Tree>)
    requires |ts| == |calls| + 1
    decreases |submitted|
  {
    if submitted == [] then calls == []
    else
      var rest, call := submitted[..|submitted| - 1], submitted[|submitted| - 1];
      || (Indexed(ts[|calls|], call) && Kept(rest, calls, ts))
      || (calls != [] && calls[|calls| - 1] == call && !Indexed(ts[|calls| - 1], call)
          && Kept(rest, calls[..|calls| - 1], ts[..|ts| - 1]))
  }

  /** So the calls are a subsequence of the submissions. */
  lemma {:induction false} KeptInOrder(submitted: seq<Call>, calls: seq<Call>, ts: seq<Tree>) returns (places: seq<nat>)
    requires |ts| == |calls| + 1 && Kept(submitted, calls, ts)
    ensures |places| == |calls|
    ensures forall k :: 0 <= k < |calls| ==> places[k] < |submitted| && calls[k] == submitted[places[k]]
    ensures forall k, l :: 0 <= k < l < |calls| ==> places[k] < places[l]
    decreases |submitted|
  {
    if submitted == [] {
      places := [];
    } else {
      var rest, call := submitted[..|submitted| - 1], submitted[|submitted| - 1];
      if Indexed(ts[|calls|], call) && Kept(rest, calls, ts) {
        places := KeptInOrder(rest, calls, ts);
      } else {
        places := KeptInOrder(rest, calls[..|calls| - 1], ts[..|ts| - 1]);
        places := places + [|submitted| - 1];
      }
    }
  }

  lemma KeptOneMore(submitted: seq<Call>, i: nat, calls: seq<Call>, ts: seq<Tree>, t: Tree)
    requires i < |submitted| && |ts| == |calls| + 1 && Kept(submitted[..i], calls, ts)
    ensures Indexed(ts[|calls|], submitted[i]) ==> Kept(submitted[..i + 1], calls, ts)
    ensures !Indexed(ts[|calls|], submitted[i]) ==> Kept(submitted[..i + 1], calls + [submitted[i]], ts + [t])
  {
    assert submitted[..i + 1][..i] == submitted[..i];
    assert (calls + [submitted[i]])[..|calls|] == calls && (ts + [t])[..|ts|] == ts;
  }

  method NewChain<U(!new), J(!new)>(rules: Rules<U, J>, genesis: Block) returns (chain: BlockChain<U, J>, ghost ts: seq<Tree>)
    requires rules.Reversible() && genesis.work > 0
    ensures AtEnd(chain, rules, [], ts, []) && chain.rules == rules && |ts| == 1
    ensures fresh(chain) && fresh(chain.index) && fresh(chain.bestChain) && fresh(chain.bestChain.backing) && fresh(chain.index.Nodes())
  {
    hide AtEnd, Sound, Initial, Follows, BlockChain.Structure, BlockChain.Conserved, BlockChain.Valid;
    chain := new BlockChain(rules, genesis);
    ts := [chain.State()];
    StartOfRun(chain);
  }

  /** Submits blocks one after the other to a new chain.  Blocks that are indexed already
      are left out.  What happens is a run. */
  method AcceptAll<U(!new), J(!new)>(rules: Rules<U, J>, genesis: Block, submitted: seq<Call>)
    returns (chain: BlockChain<U, J>, calls: seq<Call>, ghost ts: seq<Tree>, ghost es: seq<Event>)
    requires rules.Reversible() && genesis.work > 0 && forall i :: 0 <= i < |submitted| ==> submitted[i].block.work > 0
    ensures AtEnd(chain, rules, calls, ts, es)
    ensures |ts| == |calls| + 1 && Kept(submitted, calls, ts)
  {
    hide AtEnd, Kept, Indexed;
    chain, ts := NewChain(rules, genesis);
    calls, es := [], [];
    NothingKept(ts);
    var i := 0;
    while i < |submitted|
      invariant 0 <= i <= |submitted| && AtEnd(chain, rules, calls, ts, es) && chain.rules == rules
      invariant fresh(chain) && fresh(chain.index) && fresh(chain.bestChain) && fresh(chain.bestChain.backing) && fresh(chain.index.Nodes())
      invariant |ts| == |calls| + 1 && Kept(submitted[..i], calls, ts)
    {
      ghost var calls0, ts0 := calls, ts;
      calls, ts, es := Submit(chain, submitted[i], calls, ts, es);
      KeptOneMore(submitted, i, calls0, ts0, ts[|ts| - 1]);
      assert !Indexed(ts0[|calls0|], submitted[i]) ==> ts == ts0 + [ts[|ts| - 1]];
      i := i + 1;
    }
    assert submitted[..i] == submitted;
  }

  lemma NothingKept(ts: seq<Tree>)
    requires |ts| == 1
    ensures Kept([], [], ts)
  {}

  lemma StartOfRun<U(!new), J(!new)>(chain: BlockChain<U, J>)
    requires chain.Structure() && chain.Conserved() && chain.index.Valid() && chain.index.dirty == {}
    requires chain.storedWork == chain.bestChain.Tip().workSum && Initial(chain.State()) && chain.trusted == {}
    ensures AtEnd(chain, chain.rules, [], [chain.State()], [])
  {
    StartIsValid(chain);
    NoCalls(chain.rules, chain.State());
  }

  lemma StartIsValid<U(!new), J(!new)>(chain: BlockChain<U, J>)
    requires chain.Structure() && chain.Conserved() && chain.index.Valid() && chain.index.dirty == {}
    requires chain.storedWork == chain.bestChain.Tip().workSum && Initial(chain.State())
    ensures chain.Valid()
  {}

  /** Such a call: the check of a block on top of genesis meets an error.  The block stays
      off the best chain, heavier than it and unmarked. */
  method HeavierAfterFault() returns (chain: BlockChain<int, int>, r: AcceptResult)
    ensures chain.Valid() && Sound(chain.State()) && r == Rejected(Database) && !Heaviest(chain.State())
  {
    hide BlockNode.Wf, TreeOk, StatusSound, Heaviest, Choice, BlockIndex.Valid, BlockChain.Conserved;
    var genesis, block := Block(Hash(1), Hash(0), 1, 0, 1), Block(Hash(2), Hash(1), 1, 1, 1);
    var rules: Rules<int, int> := Rules(0, (u, b) => u, (u, b) => 0, (u, b, j) => u, (n, u) => true);
    chain := new BlockChain(rules, genesis);
    StartIsValid(chain);
    NoCalls(rules, chain.State());
    ghost var t := chain.State();
    GenesisIsAlone(chain);
    ghost var newNode;
    r, newNode := chain.MaybeAcceptBlock(block, false, true, {block.hash});
    assert newNode.parent == t.tip;
    StepKeepsHeaviest(t, chain.State(), newNode, r);
  }

  lemma GenesisIsAlone<U(!new), J(!new)>(chain: BlockChain<U, J>)
    requires chain.Valid() && Initial(chain.State())
    ensures var tip := chain.bestChain.Tip();
            chain.index.index == map[tip.block.hash := tip] && !tip.status.KnownInvalid()
  {
    var tip, index := chain.bestChain.Tip(), chain.index;
    assert chain.State().status.Keys == {tip} == index.Nodes();
    index.StatusAt(tip);
    assert tip in index.Nodes();
    forall h | h in index.index ensures h == tip.block.hash && index.index[h] == tip {
      assert index.index[h] in index.Nodes();
    }
  }
}

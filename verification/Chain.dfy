// The block chain: accepting blocks, extending the best chain and reorganizing it
// (accept.go, chain.go).

module Chain {
  import opened Wrappers
  import opened BlockTree
  import opened MedianTime
  import opened ChainViews
  import opened Selection
  import opened Ledgers
  import opened Index

  lemma GenesisMedian(n: BlockNode)
    requires n.Wf() && n.parent == null
    ensures MedianOf(n) == n.block.timestamp
  {
    assert Window(n, MEDIAN_TIME_BLOCKS) == [n.block.timestamp];
    MedianRank(n, 0);
  }

  /** The outcome of checking a list of blocks, from the statuses before it: either all
      are let through, or the k-th is the first that is not. */
  ghost predicate Checked<U(!new), J(!new)>(rules: Rules<U, J>, before: map<BlockNode, Status>, faults: set<Hash>, a: seq<BlockNode>, err: Option<Error>, k: int) {
    match err
    case None => forall i :: 0 <= i < |a| ==> Fine(rules, before, faults, a[i])
    case Some(error) =>
      && StopsFirst(rules, before, faults, a, k)
      && error == if a[k].block.hash in faults then Database else ConnectRule
  }

  /** The first block of a list that is not let through meets an error that is not a rule
      violation. */
  ghost predicate FaultFirst<U(!new), J(!new)>(rules: Rules<U, J>, status: map<BlockNode, Status>, faults: set<Hash>, a: seq<BlockNode>) {
    exists k :: StopsFirst(rules, status, faults, a, k) && a[k].block.hash in faults
  }

  lemma CheckedFault<U(!new), J(!new)>(rules: Rules<U, J>, before: map<BlockNode, Status>, faults: set<Hash>, a: seq<BlockNode>, err: Option<Error>, k: int)
    requires Checked(rules, before, faults, a, err, k)
    ensures err == Some(Database) <==> FaultFirst(rules, before, faults, a)
  {
    hide Fine;
    forall j | StopsFirst(rules, before, faults, a, j) ensures err.Some? && j == k {}
  }

  /** Choosing the best chain, once the node is part of the tree, meets an error that is
      not a rule violation: in the check of the node when it extends the best chain and
      is to be checked, or in a check of a heavier side chain without known invalid
      blocks. */
  ghost predicate MeetsFault<U(!new), J(!new)>(rules: Rules<U, J>, faults: set<Hash>, t: Tree, n: BlockNode, fastAdd: bool)
    requires n.Wf() && t.tip.Wf()
  {
    if n.parent == t.tip then !fastAdd && n.block.hash in faults
    else
      && n.workSum > t.tip.workSum
      && NoneInvalid(t.status, AttachNodes(n, t.tip))
      && FaultFirst(rules, t.status, faults, AttachNodes(n, t.tip))
  }

  class BlockChain<U(!new), J(!new)> {
    const rules: Rules<U, J>
    const index: BlockIndex
    const bestChain: ChainView

    var utxo: U
    var spendJournal: map<Hash, J>
    var stateSnapshot: BestState
    /** The best state record in the database, and the work stored with it. */
    var storedState: BestState
    var storedWork: nat

    // ----- What holds between the steps of every operation -----

    /** The index is a tree and the view is the branch of one of its nodes. */
    ghost predicate Structure()
      reads this, index, bestChain, bestChain.backing
    {
      && rules.Reversible()
      && bestChain.Valid() && bestChain.Tip() != null
      && TreeOk(index.Nodes(), bestChain.Tip())
    }

    /** The state that is kept for a tip is the one its branch leads to. */
    ghost predicate Carries(tip: BlockNode)
      requires tip.Wf()
      reads this
    {
      && utxo == Replay(rules, tip)
      && spendJournal == Journal(rules, tip)
      && stateSnapshot == Snapshot(tip)
      && storedState == Snapshot(tip)
    }

    /** The blocks that were added without checking them (BFFastAdd). */
    ghost var trusted: set<BlockNode>

    ghost predicate Conserved()
      requires Structure()
      reads this, index, bestChain, bestChain.backing
    {
      Carries(bestChain.Tip())
    }

    /** What the state that is kept says about the blocks of the best chain. */
    ghost predicate ShowsTip()
      requires Structure()
      reads this, index, bestChain, bestChain.backing
    {
      var tip := bestChain.Tip();
      && Shows(stateSnapshot, tip) && Shows(storedState, tip)
      && utxo == ConnectBlocks(rules, rules.genesis, Path(tip)[1..])
    }

    lemma ConservedShows()
      requires Structure() && Conserved()
      ensures ShowsTip()
    {
      hide BlockNode.Wf, Path, Replay, Snapshot, Shows, TreeOk, ChainView.Valid, ChainView.Tip;
      SnapshotShows(bestChain.Tip());
      OutputsOfBranch(rules, bestChain.Tip());
    }

    ghost function State(): Tree
      requires Structure()
      reads this, index, index.Nodes(), bestChain, bestChain.backing
    {
      Tree(index.Statuses(), bestChain.Tip())
    }

    /** createChainState: a chain that holds the genesis block. */
    constructor (rules: Rules<U, J>, genesis: Block)
      requires rules.Reversible() && genesis.work > 0
      ensures Structure() && Conserved() && storedWork == bestChain.Tip().workSum && ShowsTip()
      ensures index.Valid() && index.dirty == {}
      ensures fresh(index) && fresh(bestChain) && fresh(bestChain.backing) && fresh(index.Nodes())
      ensures Initial(State()) && bestChain.Tip().block == genesis && this.rules == rules && trusted == {}
    {
      hide Path, MedianOf, BlockIndex.Valid, ChainView.Valid, ChainView.Tip, ShowsTip;
      var node := new BlockNode(genesis, null);
      node.status := STATUS_DATA_STORED.With(STATUS_VALID);
      var blockIndex := new BlockIndex();
      blockIndex.AddNode(node);
      blockIndex.FlushToDB();
      var view := new ChainView(node);
      var state := BestState(genesis.hash, 0, genesis.txCount, genesis.txCount, genesis.timestamp);
      this.rules, index, bestChain := rules, blockIndex, view;
      utxo, spendJournal, trusted := rules.genesis, map[], {};
      stateSnapshot, storedState, storedWork := state, state, node.workSum;
      new;
      GenesisMedian(node);
      assert index.Nodes() == {node};
      ConservedShows();
    }

    // ----- Connecting and disconnecting one block -----

    /** What ConnectBlock expects: all but the unspent outputs are those of the tip,
        and the outputs, either in place already or in the view, are the node's. */
    ghost predicate Connectable(node: BlockNode, view: Option<U>, stxos: J)
      requires Structure()
      reads this, index, bestChain, bestChain.backing
    {
      var tip := bestChain.Tip();
      && node in index.Nodes() && node.parent == tip
      && stateSnapshot.totalTxns == TotalTxns(tip) && spendJournal == Journal(rules, tip)
      && (if view.None? then utxo else view.value) == rules.connect(Replay(rules, tip), node.block)
      && stxos == rules.spent(Replay(rules, tip), node.block)
    }

    /** newBestState */
    method NewBestState(node: BlockNode, totalTxns: int) returns (state: BestState)
      requires node.Wf() && totalTxns == TotalTxns(node)
      ensures state == Snapshot(node) && Shows(state, node)
    {
      SnapshotShows(node);
      var medianTime := CalcPastMedianTime(node);
      state := BestState(node.block.hash, node.height, node.block.txCount, totalTxns, medianTime);
    }

    /** The database update and the switch of the view that connecting and
        disconnecting share. */
    method CommitBest(tip: BlockNode, state: BestState, work: nat, newUtxo: U, journal: map<Hash, J>)
      requires bestChain.Valid() && tip.Wf()
      modifies this, bestChain, bestChain.backing
      ensures bestChain.Valid() && bestChain.Tip() == tip
      ensures stateSnapshot == storedState == state && storedWork == work
      ensures utxo == newUtxo && spendJournal == journal && trusted == old(trusted)
      ensures index.Statuses() == old(index.Statuses())
      ensures bestChain.backing == old(bestChain.backing) || fresh(bestChain.backing)
    {
      hide BlockNode.Wf, ChainView.Valid, ChainView.Tip;
      storedState, storedWork := state, work;
      utxo, spendJournal := newUtxo, journal;
      bestChain.SetTip(tip);
      stateSnapshot := state;
    }

    /** Makes a node the tip.  The view is None when the unspent outputs have already
        been updated. */
    method ConnectBlock(node: BlockNode, view: Option<U>, stxos: J) returns (err: Option<Error>)
      requires Structure() && index.Valid() && Connectable(node, view, stxos)
      modifies this, bestChain, bestChain.backing, index`dirty, index`stored
      ensures err == None
      ensures Structure() && Conserved() && bestChain.Tip() == node && storedWork == node.workSum && ShowsTip()
      ensures index.Valid() && index.dirty == {} && trusted == old(trusted)
      ensures index.Statuses() == old(index.Statuses())
      ensures bestChain.backing == old(bestChain.backing) || fresh(bestChain.backing)
    {
      hide BlockNode.Wf, Path, Snapshot, Replay, Journal, TotalTxns, TreeOk, Shows, ShowsTip, ChainView.Valid, ChainView.Tip, BlockIndex.Valid;
      NodeWf(node);
      NextBlock(rules, node);
      if node.block.prev != bestChain.Tip().block.hash {
        return Some(Assertion);
      }
      index.FlushToDB();
      var state := NewBestState(node, stateSnapshot.totalTxns + node.block.txCount);
      var newUtxo := if view.Some? then view.value else utxo;
      CommitBest(node, state, node.workSum, newUtxo, spendJournal[node.block.hash := stxos]);
      ConservedShows();
      return None;
    }

    lemma TipKnown()
      requires Structure() && Conserved()
      ensures bestChain.Tip() in index.Nodes()
      ensures stateSnapshot.totalTxns == TotalTxns(bestChain.Tip())
    {}

    lemma NodeWf(node: BlockNode)
      requires Structure() && node in index.Nodes()
      ensures node.Wf() && TreeOk(index.Nodes(), node)
      ensures node.parent != null ==>
                && node.parent.Wf() && node.block.prev == node.parent.block.hash
                && node.parent in index.Nodes() && TreeOk(index.Nodes(), node.parent)
    {}

    /** Takes the tip off the best chain. */
    method DisconnectBlock(node: BlockNode, view: U) returns (err: Option<Error>)
      requires Structure() && Conserved() && index.Valid()
      requires node == bestChain.Tip() && node.parent != null
      requires node.parent.Wf() && view == Replay(rules, node.parent)
      modifies this, bestChain, bestChain.backing, index`dirty, index`stored
      ensures err == None
      ensures Structure() && Conserved() && bestChain.Tip() == node.parent && storedWork == node.workSum && ShowsTip()
      ensures index.Valid() && index.dirty == {} && trusted == old(trusted)
      ensures index.Statuses() == old(index.Statuses())
      ensures bestChain.backing == old(bestChain.backing) || fresh(bestChain.backing)
    {
      hide BlockNode.Wf, Path, Snapshot, Replay, Journal, TotalTxns, TreeOk, Shows, ShowsTip, ChainView.Valid, ChainView.Tip, BlockIndex.Valid;
      TipKnown();
      NodeWf(node);
      NextBlock(rules, node);
      JournalWithoutTip(node);
      if node.block.hash != bestChain.Tip().block.hash {
        return Some(Assertion);
      }
      index.FlushToDB();
      var state := NewBestState(node.parent, stateSnapshot.totalTxns - node.block.txCount);
      CommitBest(node.parent, state, node.workSum, view, spendJournal - {node.block.hash});
      ConservedShows();
      return None;
    }

    /** Hashes on a branch of the index are pairwise different. */
    lemma BranchHashes(n: BlockNode)
      requires Structure() && n in index.Nodes() && n.Wf()
      ensures forall j, k :: 0 <= j < k < |Path(n)| ==> Path(n)[j].block.hash != Path(n)[k].block.hash
    {
      hide BlockNode.Wf, Path;
      forall j, k | 0 <= j < k < |Path(n)| ensures Path(n)[j].block.hash != Path(n)[k].block.hash {
        PathShape(n);
        PathInTree(index.Nodes(), bestChain.Tip(), n, j);
        PathInTree(index.Nodes(), bestChain.Tip(), n, k);
      }
    }

    lemma JournalWithoutTip(n: BlockNode)
      requires Structure() && n in index.Nodes() && n.Wf() && n.parent != null && n.parent.Wf()
      ensures Journal(rules, n) - {n.block.hash} == Journal(rules, n.parent)
    {
      if n.block.hash in Journal(rules, n.parent) {
        JournalKeys(rules, n.parent, n.block.hash);
        var i :| 0 <= i < |Path(n.parent)| && Path(n.parent)[i].block.hash == n.block.hash;
        assert Path(n)[i] == Path(n.parent)[i] && Path(n)[|Path(n)| - 1] == n;
        BranchHashes(n);
        assert false;
      }
    }

    // ----- Finding the blocks to detach and attach -----

    /** Walks from a node down to the fork, collecting the nodes in attach order,
        and stops at a known invalid one: the k-th to attach, -1 if there is none. */
    method CollectAttach(node: BlockNode, fork: BlockNode) returns (attach: seq<BlockNode>, invalidChain: bool, ghost k: int)
      requires Structure() && node in index.Nodes() && !OnBranch(node, bestChain.Tip())
      requires node.Wf() && fork == Fork(node, bestChain.Tip())
      ensures var a := AttachNodes(node, bestChain.Tip());
              if invalidChain then HighestInvalid(index.Statuses(), a, k) && attach == a[k + 1..]
              else k == -1 && NoneInvalid(index.Statuses(), a) && attach == a
      ensures invalidChain <==> !NoneInvalid(index.Statuses(), AttachNodes(node, bestChain.Tip()))
    {
      hide BlockNode.Wf, Path, AttachNodes, Fork, OnBranch, TreeOk;
      ghost var a := AttachNodes(node, bestChain.Tip());
      AttachShape(index.Nodes(), bestChain.Tip(), node);
      attach, invalidChain, k := [], false, |a| - 1;
      var n: BlockNode? := node;
      while n != null && n != fork
        invariant -1 <= k < |a| && attach == a[k + 1..]
        invariant n == if k >= 0 then a[k] else fork
        invariant NoneInvalid(index.Statuses(), attach)
        decreases k
      {
        if n.status.KnownInvalid() {
          invalidChain := true;
          break;
        }
        attach := [n] + attach;
        n := n.parent;
        k := k - 1;
      }
    }

    /** Marks a list of nodes for having an invalid ancestor. */
    method MarkInvalidAncestor(nodes: seq<BlockNode>)
      requires index.Valid() && forall i :: 0 <= i < |nodes| ==> nodes[i] in index.Nodes()
      modifies index`dirty, index.Nodes()`status
      ensures index.Valid()
      ensures index.Statuses() == Mark(old(index.Statuses()), nodes, STATUS_INVALID_ANCESTOR)
    {
      hide BlockIndex.Valid, Mark;
      MarkNone(index.Statuses(), STATUS_INVALID_ANCESTOR);
      var e := 0;
      while e < |nodes|
        invariant 0 <= e <= |nodes| && index.Valid()
        invariant index.Statuses() == Mark(old(index.Statuses()), nodes[..e], STATUS_INVALID_ANCESTOR)
      {
        MarkStep(old(index.Statuses()), nodes, e, STATUS_INVALID_ANCESTOR);
        index.SetStatusFlags(nodes[e], STATUS_INVALID_ANCESTOR);
        e := e + 1;
      }
      assert nodes[..e] == nodes;
    }

    lemma MarkNone(status: map<BlockNode, Status>, flags: Status)
      ensures Mark(status, [], flags) == status
    {}

    /** Walks from the tip down to the fork. */
    method CollectDetach(fork: BlockNode) returns (detach: seq<BlockNode>)
      requires Structure() && OnBranch(fork, bestChain.Tip())
      ensures IsDetachList(detach, bestChain.Tip(), fork)
    {
      hide BlockNode.Wf, Path;
      PathShape(bestChain.Tip());
      detach := [];
      var n: BlockNode? := bestChain.Tip();
      while n != null && n != fork
        invariant n != null && n.Wf() && OnBranch(n, bestChain.Tip()) && n.height >= fork.height
        invariant |detach| == bestChain.Tip().height - n.height
        invariant forall i :: 0 <= i < |detach| ==> detach[i] == Path(bestChain.Tip())[bestChain.Tip().height - i]
        decreases n.height
      {
        Links(bestChain.Tip(), n.height);
        detach := detach + [n];
        n := n.parent;
      }
    }

    /** The two lists for a node, and the statuses after they were determined. */
    ghost predicate ReorganizeNodes(before: map<BlockNode, Status>, node: BlockNode, detach: seq<BlockNode>, attach: seq<BlockNode>, k: int)
      requires Structure() && node.Wf()
      reads this, index, index.Nodes(), bestChain, bestChain.backing
    {
      var a, fork := AttachNodes(node, bestChain.Tip()), Fork(node, bestChain.Tip());
      if k >= 0 then
        && detach == [] && attach == [] && HighestInvalid(before, a, k)
        && index.Statuses() == Mark(before, a[k + 1..], STATUS_INVALID_ANCESTOR)
      else
        && fork != null && IsDetachList(detach, bestChain.Tip(), fork) && attach == a && NoneInvalid(before, a)
        && index.Statuses() == before
    }

    /** The blocks to detach, from the tip down to the fork with the branch of a node,
        and those to attach, from there up to the node.  Both are empty when the branch
        holds a known invalid block, and then the blocks above it are marked: k is the
        position of the highest one among the blocks to attach. */
    method GetReorganizeNodes(node: BlockNode) returns (detach: seq<BlockNode>, attach: seq<BlockNode>, ghost k: int)
      requires Structure() && index.Valid()
      requires node.Wf() && node in index.Nodes() && !OnBranch(node, bestChain.Tip()) && node.parent != null
      modifies index`dirty, index.Nodes()`status
      ensures index.Valid() && -1 <= k
      ensures old(node.parent.status.KnownInvalid()) ==>
                && detach == [] && attach == []
                && index.Statuses() == old(index.Statuses())[node := old(node.status).With(STATUS_INVALID_ANCESTOR)]
      ensures !old(node.parent.status.KnownInvalid()) ==>
                ReorganizeNodes(old(index.Statuses()), node, detach, attach, k)
    {
      hide BlockNode.Wf, Path, AttachNodes, Fork, OnBranch, TreeOk, Mark, BlockIndex.Valid, ChainView.Valid, ChainView.Tip, NoneInvalid;
      if node.parent.status.KnownInvalid() {
        index.SetStatusFlags(node, STATUS_INVALID_ANCESTOR);
        return [], [], 0;
      }
      AttachShape(index.Nodes(), bestChain.Tip(), node);
      var forkNode := bestChain.FindFork(node);
      var invalidChain;
      attach, invalidChain, k := CollectAttach(node, forkNode);
      if invalidChain {
        MarkInvalidAncestor(attach);
        return [], [], k;
      }
      detach := CollectDetach(forkNode);
    }

    // ----- Reorganizing -----

    /** Undoing the tip of a branch gives the state of its parent. */
    lemma UndoTip(n: BlockNode)
      requires rules.Reversible() && n.Wf() && n.parent != null && n.parent.Wf()
      ensures Replay(rules, n) == rules.connect(Replay(rules, n.parent), n.block)
      ensures rules.undo(Replay(rules, n), n.block, rules.spent(Replay(rules, n.parent), n.block)) == Replay(rules, n.parent)
    {}

    /** The journal entry of a block of the best chain. */
    lemma SpentAt(n: BlockNode)
      requires Structure() && Conserved() && OnBranch(n, bestChain.Tip()) && n.parent != null && n.parent.Wf()
      ensures n.block.hash in spendJournal
      ensures spendJournal[n.block.hash] == rules.spent(Replay(rules, n.parent), n.block)
    {
      hide BlockNode.Wf, Path, TreeOk;
      var tip := bestChain.Tip();
      TipKnown();
      BranchHashes(tip);
      PathShape(tip);
      if n.height > 0 {
        Links(tip, n.height);
        JournalAt(rules, tip, n.height);
      } else {
        PathInTree(index.Nodes(), tip, tip, 0);
        assert false;
      }
    }

    /** What each detached block spent, as the reorganization loads it. */
    ghost predicate SpentBy(detach: seq<BlockNode>, spent: seq<J>) {
      && |spent| == |detach|
      && forall i :: 0 <= i < |detach| && detach[i].parent != null && detach[i].parent.Wf() ==>
           spent[i] == rules.spent(Replay(rules, detach[i].parent), detach[i].block)
    }

    lemma SpentByAt(detach: seq<BlockNode>, spent: seq<J>, i: nat)
      requires SpentBy(detach, spent) && i < |detach| && detach[i].parent != null && detach[i].parent.Wf()
      ensures |spent| == |detach| && spent[i] == rules.spent(Replay(rules, detach[i].parent), detach[i].block)
    {}

    /** Loads what the blocks to detach spent and undoes them on a view. */
    method LoadDetach(detach: seq<BlockNode>, ghost fork: BlockNode) returns (view: U, spent: seq<J>)
      requires Structure() && Conserved() && IsDetachList(detach, bestChain.Tip(), fork) && fork.Wf()
      ensures view == Replay(rules, fork) && SpentBy(detach, spent)
    {
      hide BlockNode.Wf, Path, Journal, TreeOk, IsDetachList;
      ghost var tip := bestChain.Tip();
      DetachStart(detach, tip, fork);
      view, spent := utxo, [];
      var e := 0;
      while e < |detach|
        invariant 0 <= e <= |detach| && SpentBy(detach[..e], spent)
        invariant var n := if e < |detach| then detach[e] else fork; n.Wf() && view == Replay(rules, n)
      {
        var n := detach[e];
        DetachLink(detach, tip, fork, e);
        SpentAt(n);
        UndoTip(n);
        spent := spent + [spendJournal[n.block.hash]];
        view := rules.undo(view, n.block, spent[e]);
        e := e + 1;
      }
      assert detach[..e] == detach;
    }

    /** Takes the blocks of the detach list off the best chain one by one. */
    method DisconnectAll(detach: seq<BlockNode>, spent: seq<J>, ghost fork: BlockNode) returns (view: U, err: Option<Error>)
      requires Structure() && Conserved() && index.Valid() && fork.Wf()
      requires IsDetachList(detach, bestChain.Tip(), fork) && SpentBy(detach, spent)
      modifies this, bestChain, bestChain.backing, index`dirty, index`stored
      ensures err == None && Structure() && Conserved() && index.Valid() && trusted == old(trusted)
      ensures index.Statuses() == old(index.Statuses())
      ensures bestChain.Tip() == fork && view == Replay(rules, fork)
      ensures bestChain.backing == old(bestChain.backing) || fresh(bestChain.backing)
      ensures detach == [] ==> storedWork == old(storedWork)
    {
      hide BlockNode.Wf, Path, Journal, TreeOk, IsDetachList, Replay, Snapshot, SpentBy, OnBranch, ChainView.Valid, ChainView.Tip, BlockIndex.Valid;
      ghost var tip := bestChain.Tip();
      DetachStart(detach, tip, fork);
      view := utxo;
      var i := 0;
      while i < |detach|
        invariant 0 <= i <= |detach|
        invariant Structure() && Conserved() && index.Valid()
        invariant bestChain.Tip() == if i < |detach| then detach[i] else fork
        invariant view == Replay(rules, bestChain.Tip())
        invariant bestChain.backing == old(bestChain.backing) || fresh(bestChain.backing)
        invariant index.Statuses() == old(index.Statuses())
        invariant trusted == old(trusted) && (i == 0 ==> storedWork == old(storedWork))
      {
        var n := detach[i];
        DetachLink(detach, tip, fork, i);
        SpentByAt(detach, spent, i);
        UndoTip(n);
        view := rules.undo(view, n.block, spent[i]);
        err := DisconnectBlock(n, view);
        if err.Some? {
          return;
        }
        i := i + 1;
      }
      err := None;
    }

    /** Connects the blocks of the attach list one by one. */
    method ConnectAll(attach: seq<BlockNode>, view0: U) returns (err: Option<Error>)
      requires Structure() && Conserved() && index.Valid()
      requires Linked(attach) && attach != [] && attach[0].parent == bestChain.Tip() && view0 == utxo
      requires forall i :: 0 <= i < |attach| ==> attach[i] in index.Nodes()
      modifies this, bestChain, bestChain.backing, index`dirty, index`stored
      ensures err == None && Structure() && Conserved() && index.Valid() && index.dirty == {} && trusted == old(trusted)
      ensures index.Statuses() == old(index.Statuses())
      ensures bestChain.Tip() == attach[|attach| - 1] && storedWork == bestChain.Tip().workSum
      ensures bestChain.backing == old(bestChain.backing) || fresh(bestChain.backing)
    {
      hide BlockNode.Wf, Path, Journal, TreeOk, Replay, TotalTxns, Snapshot, ChainView.Valid, ChainView.Tip, BlockIndex.Valid, BlockIndex.Statuses;
      var view := view0;
      var i := 0;
      while i < |attach|
        invariant 0 <= i <= |attach|
        invariant Structure() && Conserved() && index.Valid() && (i > 0 ==> index.dirty == {})
        invariant bestChain.Tip() == if i == 0 then attach[0].parent else attach[i - 1]
        invariant index.Statuses() == old(index.Statuses())
        invariant view == utxo && trusted == old(trusted) && (i > 0 ==> storedWork == bestChain.Tip().workSum)
        invariant bestChain.backing == old(bestChain.backing) || fresh(bestChain.backing)
      {
        var n := attach[i];
        assert i > 0 ==> n.parent == attach[i - 1];
        NodeWf(n);
        NextBlock(rules, n);
        TipKnown();
        var stxos := rules.spent(view, n.block);
        view := rules.connect(view, n.block);
        err := ConnectBlock(n, Some(view), stxos);
        if err.Some? {
          return;
        }
        i := i + 1;
      }
      err := None;
    }

    /** The check phase: every block to attach, against the state that its own branch
        leads to.  It changes statuses only. */
    method CheckAttach(attach: seq<BlockNode>, view0: U, faults: set<Hash>) returns (err: Option<Error>, ghost k: int)
      requires index.Valid() && Truthful(rules, index.Statuses(), trusted)
      requires Linked(attach) && forall i :: 0 <= i < |attach| ==> attach[i] in index.Nodes() && attach[i].Wf()
      requires attach != [] ==> attach[0].parent != null && attach[0].parent.Wf() && view0 == Replay(rules, attach[0].parent)
      modifies index`dirty, index.Nodes()`status
      ensures index.Valid() && Truthful(rules, index.Statuses(), trusted)
      ensures err == None ==> index.Statuses() == Mark(old(index.Statuses()), attach, STATUS_VALID)
      ensures err.Some? ==> ChecksFailed(old(index.Statuses()), index.Statuses(), attach, k, err.value)
      ensures Checked(rules, old(index.Statuses()), faults, attach, err, k)
    {
      hide BlockNode.Wf, Path, Replay, Mark, BlockIndex.Valid, BlockIndex.Statuses, Truthful, Fine, Passes, Checked;
      ghost var before := index.Statuses();
      MarkNone(before, STATUS_VALID);
      LinkedDistinct(attach);
      var view := view0;
      var e := 0;
      k := 0;
      while e < |attach|
        invariant 0 <= e <= |attach| && index.Valid()
        invariant e < |attach| ==> attach[e].parent != null && attach[e].parent.Wf() && view == Replay(rules, attach[e].parent)
        invariant index.Statuses() == Mark(before, attach[..e], STATUS_VALID)
        invariant Truthful(rules, index.Statuses(), trusted)
        invariant forall i :: 0 <= i < e ==> Fine(rules, before, faults, attach[i])
      {
        var n := attach[e];
        k := e;
        assert n !in attach[..e];
        index.StatusAt(n);
        MarkStep(before, attach, e, STATUS_VALID);
        MarkAt(before, attach[..e], STATUS_VALID, n);
        FineIf(before, faults, n);
        if !n.status.KnownValid() {
          if n.block.hash in faults {
            StopsHere(before, faults, attach, e);
            return Some(Database), k;
          }
          if !rules.check(n, view) {
            StopsHere(before, faults, attach, e);
            TruthfulFailed(index.Statuses(), n);
            MarkOne(index.Statuses(), n, STATUS_VALIDATE_FAILED);
            index.SetStatusFlags(n, STATUS_VALIDATE_FAILED);
            TruthfulBelow(index.Statuses(), attach[e + 1..]);
            MarkInvalidAncestor(attach[e + 1..]);
            return Some(ConnectRule), k;
          }
          TruthfulValid(index.Statuses(), n);
          index.SetStatusFlags(n, STATUS_VALID);
        } else {
          ValidAlready(index.Statuses(), n);
        }
        NextBlock(rules, n);
        view := rules.connect(view, n.block);
        assert e + 1 < |attach| ==> attach[e + 1].parent == n;
        e := e + 1;
      }
      assert attach[..e] == attach;
      err := None;
      NothingStops(before, faults, attach);
    }

    /** When a check lets a block through. */
    lemma FineIf(before: map<BlockNode, Status>, faults: set<Hash>, n: BlockNode)
      requires n in before && n.Wf() && n.parent != null && n.parent.Wf()
      ensures Fine(rules, before, faults, n) <==>
                before[n].KnownValid() || (n.block.hash !in faults && rules.check(n, Replay(rules, n.parent)))
      ensures Passes(rules, n) <==> rules.check(n, Replay(rules, n.parent))
    {}

    lemma StopsHere(before: map<BlockNode, Status>, faults: set<Hash>, a: seq<BlockNode>, k: nat)
      requires k < |a| && a[k] in before && !Fine(rules, before, faults, a[k])
      requires forall i :: 0 <= i < k ==> Fine(rules, before, faults, a[i])
      ensures Checked(rules, before, faults, a, Some(if a[k].block.hash in faults then Database else ConnectRule), k)
    {
      hide Fine;
    }

    lemma NothingStops(before: map<BlockNode, Status>, faults: set<Hash>, a: seq<BlockNode>)
      requires forall i :: 0 <= i < |a| ==> Fine(rules, before, faults, a[i])
      ensures forall k :: Checked(rules, before, faults, a, None, k)
    {
      hide Fine;
    }

    /** Blocks that follow each other are at different heights. */
    lemma {:induction false} LinkedHeights(a: seq<BlockNode>, i: nat, j: nat)
      requires Linked(a) && i <= j < |a| && forall x :: 0 <= x < |a| ==> a[x].Wf()
      ensures a[j].height == a[i].height + (j - i)
      decreases j - i
    {
      if i < j {
        assert a[j].parent == a[j - 1];
        LinkedHeights(a, i, j - 1);
      }
    }

    lemma LinkedDistinct(a: seq<BlockNode>)
      requires Linked(a) && forall x :: 0 <= x < |a| ==> a[x].Wf()
      ensures forall i, j :: 0 <= i < j < |a| ==> a[i] != a[j]
    {
      forall i, j | 0 <= i < j < |a| ensures a[i] != a[j] {
        LinkedHeights(a, i, j);
      }
    }

    lemma MarkOne(status: map<BlockNode, Status>, n: BlockNode, flags: Status)
      requires n in status
      ensures status[n := status[n].With(flags)] == Mark(status, [n], flags)
    {}

    lemma ValidAlready(status: map<BlockNode, Status>, n: BlockNode)
      requires n in status && status[n].KnownValid()
      ensures status[n := status[n].With(STATUS_VALID)] == status
    {}

    lemma TruthfulValid(status: map<BlockNode, Status>, n: BlockNode)
      requires Truthful(rules, status, trusted) && n in status && n.Wf() && n.parent != null && n.parent.Wf()
      requires Passes(rules, n)
      ensures Truthful(rules, status[n := status[n].With(STATUS_VALID)], trusted)
    {}

    lemma TruthfulFailed(status: map<BlockNode, Status>, n: BlockNode)
      requires Truthful(rules, status, trusted) && n in status && n.Wf() && n.parent != null && n.parent.Wf()
      requires !Passes(rules, n)
      ensures Truthful(rules, status[n := status[n].With(STATUS_VALIDATE_FAILED)], trusted)
    {}

    lemma TruthfulBelow(status: map<BlockNode, Status>, nodes: seq<BlockNode>)
      requires Truthful(rules, status, trusted)
      ensures Truthful(rules, Mark(status, nodes, STATUS_INVALID_ANCESTOR), trusted)
    {}

    /** The lists that reorganizeChain expects: none, or those of a node off the best
        chain. */
    ghost predicate ReorganizeLists(detach: seq<BlockNode>, attach: seq<BlockNode>, node: BlockNode)
      requires Structure()
      reads this, index, bestChain, bestChain.backing
    {
      var tip := bestChain.Tip();
      || (detach == [] && attach == [])
      || (&& node in index.Nodes() && node.Wf() && !OnBranch(node, tip) && Fork(node, tip) != null
          && IsDetachList(detach, tip, Fork(node, tip)) && attach == AttachNodes(node, tip))
    }

    /** What attaching a list of blocks may lead to. */
    ghost predicate Reorganized(before: map<BlockNode, Status>, oldTip: BlockNode, attach: seq<BlockNode>, err: Option<Error>, k: int)
      requires Structure()
      reads this, index, index.Nodes(), bestChain, bestChain.backing
    {
      var tip, after := bestChain.Tip(), index.Statuses();
      match err
      case None =>
        && after == Mark(before, attach, STATUS_VALID)
        && tip == if attach == [] then oldTip else attach[|attach| - 1]
      case Some(error) => tip == oldTip && ChecksFailed(before, after, attach, k, error)
    }

    /** Checks all blocks to attach before it changes the chain: it then makes the last
        one the tip, and changes statuses only when a block does not pass. */
    method ReorganizeChain(detach: seq<BlockNode>, attach: seq<BlockNode>, faults: set<Hash>, ghost node: BlockNode)
      returns (err: Option<Error>, ghost k: int)
      requires Structure() && Conserved() && index.Valid() && Truthful(rules, index.Statuses(), trusted)
      requires storedWork == bestChain.Tip().workSum
      requires ReorganizeLists(detach, attach, node)
      modifies this, bestChain, bestChain.backing, index`dirty, index`stored, index.Nodes()`status
      ensures Structure() && Conserved() && ShowsTip() && index.Valid() && Truthful(rules, index.Statuses(), trusted)
      ensures storedWork == bestChain.Tip().workSum && trusted == old(trusted)
      ensures Reorganized(old(index.Statuses()), old(bestChain.Tip()), attach, err, k)
      ensures Checked(rules, old(index.Statuses()), faults, attach, err, k)
      ensures attach == [] ==> err == None && State() == old(State())
      ensures bestChain.backing == old(bestChain.backing) || fresh(bestChain.backing)
    {
      hide BlockNode.Wf, Path, Fork, AttachNodes, OnBranch, IsDetachList, TreeOk, Replay, Journal, Snapshot, Mark, Truthful,
        ReorganizeLists, SpentBy, ShowsTip, ChainView.Valid, ChainView.Tip, BlockIndex.Valid;
      k := 0;
      ConservedShows();
      if |detach| == 0 && |attach| == 0 {
        MarkNone(index.Statuses(), STATUS_VALID);
        return None, k;
      }
      var tip := bestChain.Tip();
      ghost var fork := ListFacts(detach, attach, node);
      if |detach| != 0 && detach[0].block.hash != tip.block.hash {
        return Some(Assertion), k;
      }
      if |attach| != 0 && |detach| != 0 && attach[0].parent.block.hash != detach[|detach| - 1].parent.block.hash {
        return Some(Assertion), k;
      }
      var view, spent := LoadDetach(detach, fork);
      err, k := CheckAttach(attach, view, faults);
      ConservedShows();
      if err.Some? {
        return err, k;
      }
      err := SwitchBranch(detach, spent, attach, fork);
      ConservedShows();
    }

    /** The part of a reorganization that changes the chain. */
    method SwitchBranch(detach: seq<BlockNode>, spent: seq<J>, attach: seq<BlockNode>, ghost fork: BlockNode) returns (err: Option<Error>)
      requires Structure() && Conserved() && index.Valid() && fork.Wf()
      requires IsDetachList(detach, bestChain.Tip(), fork) && SpentBy(detach, spent)
      requires attach != [] && attach[0].parent == fork && Linked(attach)
      requires forall i :: 0 <= i < |attach| ==> attach[i] in index.Nodes()
      modifies this, bestChain, bestChain.backing, index`dirty, index`stored
      ensures err == None && Structure() && Conserved() && index.Valid() && trusted == old(trusted)
      ensures index.Statuses() == old(index.Statuses())
      ensures bestChain.Tip() == attach[|attach| - 1] && storedWork == bestChain.Tip().workSum
      ensures bestChain.backing == old(bestChain.backing) || fresh(bestChain.backing)
    {
      hide BlockNode.Wf, Path, Fork, OnBranch, IsDetachList, TreeOk, Replay, Journal, Snapshot, SpentBy,
        ChainView.Valid, ChainView.Tip, BlockIndex.Valid, BlockIndex.Statuses;
      var view;
      view, err := DisconnectAll(detach, spent, fork);
      if err.Some? {
        return;
      }
      err := ConnectAll(attach, view);
    }

    /** The lists start at the tip and at the fork, and there is something to attach. */
    lemma ListFacts(detach: seq<BlockNode>, attach: seq<BlockNode>, node: BlockNode) returns (fork: BlockNode)
      requires Structure() && ReorganizeLists(detach, attach, node) && (detach != [] || attach != [])
      ensures fork.Wf() && IsDetachList(detach, bestChain.Tip(), fork)
      ensures detach != [] ==> detach[0] == bestChain.Tip() && detach[|detach| - 1].parent == fork
      ensures attach != [] && attach[0].parent == fork && Linked(attach) && attach[|attach| - 1] == node
      ensures forall i :: 0 <= i < |attach| ==> attach[i] in index.Nodes() && attach[i].Wf()
    {
      hide BlockNode.Wf, Path, Fork, AttachNodes, OnBranch, IsDetachList, ChainView.Valid, ChainView.Tip;
      var tip := bestChain.Tip();
      fork := Fork(node, tip);
      AttachShape(index.Nodes(), tip, node);
      DetachStart(detach, tip, fork);
      if detach != [] {
        DetachLink(detach, tip, fork, |detach| - 1);
      }
    }

    // ----- Accepting blocks -----

    /** What holds between calls. */
    ghost predicate Valid()
      reads this, index, index.Nodes(), bestChain, bestChain.backing
    {
      && Structure() && Conserved() && index.Valid() && index.dirty == {}
      && Truthful(rules, index.Statuses(), trusted)
      && storedWork == bestChain.Tip().workSum
    }

    /** The check of a block on top of the best chain, and the status it leads to. */
    method CheckExtension(node: BlockNode, faults: set<Hash>) returns (err: Option<Error>)
      requires Valid() && node in index.Nodes() && node.Wf() && node.parent == bestChain.Tip()
      modifies index`dirty, index`stored, node`status
      ensures index.Valid() && index.dirty == {} && Truthful(rules, index.Statuses(), trusted)
      ensures var before := old(index.Statuses());
              match err
              case None => index.Statuses() == Mark(before, [node], STATUS_VALID)
              case Some(ConnectRule) => index.Statuses() == Mark(before, [node], STATUS_VALIDATE_FAILED)
              case Some(error) => error == Database && index.Statuses() == before
      ensures err == Some(Database) <==> node.block.hash in faults
      ensures err == None <==> node.block.hash !in faults && Passes(rules, node)
    {
      hide BlockNode.Wf, Path, TreeOk, Replay, Journal, Snapshot, Mark, Truthful,
        ChainView.Valid, ChainView.Tip, BlockIndex.Valid, BlockIndex.Statuses;
      ghost var before := index.Statuses();
      index.StatusAt(node);
      if node.block.hash in faults {
        return Some(Database);
      }
      if rules.check(node, utxo) {
        TruthfulValid(before, node);
        MarkOne(before, node, STATUS_VALID);
        index.SetStatusFlags(node, STATUS_VALID);
        err := None;
      } else {
        TruthfulFailed(before, node);
        MarkOne(before, node, STATUS_VALIDATE_FAILED);
        index.SetStatusFlags(node, STATUS_VALIDATE_FAILED);
        err := Some(ConnectRule);
      }
      index.FlushToDB();
    }

    /** Connects the transactions to the cache and then the block to the chain. */
    method ConnectToCache(node: BlockNode) returns (err: Option<Error>)
      requires Structure() && Conserved() && index.Valid() && node in index.Nodes() && node.parent == bestChain.Tip()
      modifies this, bestChain, bestChain.backing, index`dirty, index`stored
      ensures err == None && Structure() && Conserved() && index.Valid() && index.dirty == {}
      ensures bestChain.Tip() == node && storedWork == node.workSum && trusted == old(trusted)
      ensures index.Statuses() == old(index.Statuses())
      ensures bestChain.backing == old(bestChain.backing) || fresh(bestChain.backing)
    {
      hide BlockNode.Wf, Path, TreeOk, Replay, Journal, Snapshot, ChainView.Valid, ChainView.Tip, BlockIndex.Valid, BlockIndex.Statuses;
      TipKnown();
      var stxos := rules.spent(utxo, node.block);
      utxo := rules.connect(utxo, node.block);
      err := ConnectBlock(node, None, stxos);
    }

    /** connectBestChain when the node extends the best chain. */
    method ExtendBestChain(node: BlockNode, fastAdd0: bool, faults: set<Hash>) returns (r: AcceptResult)
      requires Valid() && node in index.Nodes() && node.Wf() && node.parent == bestChain.Tip()
      requires node.status == STATUS_DATA_STORED
      modifies this, bestChain, bestChain.backing, index`dirty, index`stored, node`status
      ensures Valid()
      ensures ExtendStep(old(State()), State(), node, r)
      ensures trusted == old(trusted) + if fastAdd0 then {node} else {}
      ensures r == Rejected(Database) <==> !fastAdd0 && node.block.hash in faults
      ensures bestChain.backing == old(bestChain.backing) || fresh(bestChain.backing)
    {
      hide BlockNode.Wf, Path, TreeOk, Replay, Journal, Snapshot, Mark, Truthful,
        ChainView.Valid, ChainView.Tip, BlockIndex.Valid, BlockIndex.Statuses;
      index.StatusAt(node);
      MarkAt(index.Statuses(), [node], STATUS_VALID, node);
      var fastAdd := fastAdd0 || node.status.KnownValid();
      if !fastAdd {
        var failed := CheckExtension(node, faults);
        if failed.Some? {
          return Rejected(failed.value);
        }
      }
      var err := ConnectToCache(node);
      if err.Some? {
        return AsResult(err);
      }
      index.StatusAt(node);
      if fastAdd || !node.status.KnownValid() {
        MarkTrusted(node);
      }
      r := Accepted(true);
    }

    /** Marks a connected block as valid that was not checked. */
    method MarkTrusted(node: BlockNode)
      requires Valid() && node in index.Nodes()
      modifies this`trusted, index`dirty, index`stored, node`status
      ensures Valid() && trusted == old(trusted) + {node}
      ensures bestChain.Tip() == old(bestChain.Tip())
      ensures index.Statuses() == Mark(old(index.Statuses()), [node], STATUS_VALID)
    {
      hide BlockNode.Wf, Path, TreeOk, Replay, Journal, Snapshot, Mark, Truthful,
        ChainView.Valid, ChainView.Tip, BlockIndex.Valid, BlockIndex.Statuses;
      index.StatusAt(node);
      TruthfulTrusted(index.Statuses(), node);
      MarkOne(index.Statuses(), node, STATUS_VALID);
      trusted := trusted + {node};
      index.SetStatusFlags(node, STATUS_VALID);
      index.FlushToDB();
    }

    /** A block that is trusted need not pass. */
    lemma TruthfulTrusted(status: map<BlockNode, Status>, n: BlockNode)
      requires Truthful(rules, status, trusted) && n in status
      ensures Truthful(rules, status[n := status[n].With(STATUS_VALID)], trusted + {n})
    {}

    function AsResult(err: Option<Error>): AcceptResult {
      match err
      case None => Accepted(true)
      case Some(error) => Rejected(error)
    }

    /** Writes the statuses; the flush that ends every operation. */
    method FlushIndexState()
      requires Structure() && Conserved() && index.Valid()
      requires Truthful(rules, index.Statuses(), trusted) && storedWork == bestChain.Tip().workSum
      modifies index`dirty, index`stored
      ensures Valid() && State() == old(State())
    {
      hide BlockNode.Wf, Path, TreeOk, Replay, Journal, Snapshot, Truthful,
        ChainView.Valid, ChainView.Tip, BlockIndex.Valid, BlockIndex.Statuses;
      index.FlushToDB();
    }

    /** connectBestChain when the side chain has more work than the best chain. */
    method ConnectHeavier(node: BlockNode, faults: set<Hash>) returns (r: AcceptResult)
      requires Valid() && node in index.Nodes() && node.Wf() && node.parent != null && !OnBranch(node, bestChain.Tip())
      requires !node.parent.status.KnownInvalid()
      requires node.parent != bestChain.Tip() && node.workSum > bestChain.Tip().workSum
      modifies this, bestChain, bestChain.backing, index`dirty, index`stored, index.Nodes()`status
      ensures Valid() && trusted == old(trusted)
      ensures Choice(old(State()), State(), node, r)
      ensures r == Rejected(Database) <==> MeetsFault(rules, faults, old(State()), node, false)
      ensures bestChain.backing == old(bestChain.backing) || fresh(bestChain.backing)
    {
      hide BlockNode.Wf, Path, TreeOk, Replay, Journal, Snapshot, Mark, Truthful, Fork, AttachNodes, OnBranch, IsDetachList,
        ChainView.Valid, ChainView.Tip, BlockIndex.Valid, BlockIndex.Statuses, ChecksFailed, NoneInvalid, Choice, Checked, FaultFirst;
      ghost var t, a := State(), AttachNodes(node, bestChain.Tip());
      ghost var k, kk;
      var detach, attach;
      detach, attach, k := GetReorganizeNodes(node);
      if k >= 0 {
        TruthfulBelow(t.status, a[k + 1..]);
      }
      var err;
      err, kk := ReorganizeChain(detach, attach, faults, node);
      r := AsResult(err);
      HeavierChoice(t, State(), node, r, k, kk);
      if k >= 0 {
        HighestIsInvalid(t.status, a, k);
      } else {
        CheckedFault(rules, t.status, faults, a, err, kk);
      }
      FlushIndexState();
    }

    lemma HighestIsInvalid(status: map<BlockNode, Status>, a: seq<BlockNode>, k: int)
      requires HighestInvalid(status, a, k)
      ensures !NoneInvalid(status, a)
    {}

    /** The result of a reorganization attempt as a choice of the best chain. */
    lemma HeavierChoice(t: Tree, t': Tree, n: BlockNode, r: AcceptResult, k: int, kk: int)
      requires n.Wf() && t.tip.Wf() && n in t.status && TreeOk(t.status.Keys, t.tip) && !OnBranch(n, t.tip)
      requires n.parent != t.tip && n.workSum > t.tip.workSum
      requires var a := AttachNodes(n, t.tip);
               if k >= 0 then
                 HighestInvalid(t.status, a, k) && r == Accepted(true)
                 && t' == Tree(Mark(t.status, a[k + 1..], STATUS_INVALID_ANCESTOR), t.tip)
               else
                 NoneInvalid(t.status, a) &&
                 match r
                 case Accepted(_) => r == Accepted(true) && t'.status == Mark(t.status, a, STATUS_VALID) && (a != [] ==> t'.tip == a[|a| - 1])
                 case Rejected(error) => t'.tip == t.tip && ChecksFailed(t.status, t'.status, a, kk, error)
      ensures Choice(t, t', n, r)
    {
      hide BlockNode.Wf, Path, Mark, AttachNodes, Fork, OnBranch, NoneInvalid;
      AttachShape(t.status.Keys, t.tip, n);
      if k >= 0 {
        assert InvalidBranchStep(t, t', n, r, k);
      } else if r.Rejected? {
        assert FailedReorgStep(t, t', n, r, kk);
      }
    }

    /** Chooses the best chain after a node was indexed. */
    method ConnectBestChain(node: BlockNode, fastAdd: bool, faults: set<Hash>) returns (r: AcceptResult)
      requires Valid() && node in index.Nodes() && node.Wf() && node.parent != null && !OnBranch(node, bestChain.Tip())
      requires node.status == STATUS_DATA_STORED && !node.parent.status.KnownInvalid()
      modifies this, bestChain, bestChain.backing, index`dirty, index`stored, index.Nodes()`status
      ensures Valid()
      ensures Choice(old(State()), State(), node, r)
      ensures trusted == old(trusted) + if fastAdd && node.parent == old(bestChain.Tip()) then {node} else {}
      ensures r == Rejected(Database) <==> MeetsFault(rules, faults, old(State()), node, fastAdd)
      ensures bestChain.backing == old(bestChain.backing) || fresh(bestChain.backing)
    {
      hide BlockNode.Wf, Path, TreeOk, Replay, Journal, Snapshot, Mark, Truthful, Fork, AttachNodes, OnBranch,
        ChainView.Valid, ChainView.Tip, BlockIndex.Valid, BlockIndex.Statuses, ExtendStep, FaultFirst;
      ParentIsTip(node);
      if node.block.prev == bestChain.Tip().block.hash {
        r := ExtendBestChain(node, fastAdd, faults);
      } else if node.workSum <= bestChain.Tip().workSum {
        r := Accepted(false);
      } else {
        r := ConnectHeavier(node, faults);
      }
    }

    /** Hashes are unique, so the previous hash names the tip exactly if the parent is
        the tip. */
    lemma ParentIsTip(node: BlockNode)
      requires Structure() && node in index.Nodes() && node.parent != null
      ensures node.block.prev == bestChain.Tip().block.hash <==> node.parent == bestChain.Tip()
    {
      assert node.Wf();
    }

    /** Indexes a new node for a block, with its data stored. */
    method AddBlockNode(block: Block, prevNode: BlockNode) returns (newNode: BlockNode)
      requires Valid() && prevNode in index.Nodes() && prevNode.Wf()
      requires block.work > 0 && block.hash !in index.index && block.prev == prevNode.block.hash
      modifies index
      ensures fresh(newNode) && newNode.block == block && newNode.parent == prevNode && newNode.status == STATUS_DATA_STORED
      ensures Valid() && index.Nodes() == old(index.Nodes()) + {newNode}
      ensures NewNode(old(State()), newNode) && State() == WithNode(old(State()), newNode)
    {
      hide BlockNode.Wf, Path, Replay, Journal, Snapshot, Truthful, TreeOk, NewNode,
        ChainView.Valid, ChainView.Tip, BlockIndex.Valid, BlockIndex.Statuses;
      newNode := new BlockNode(block, prevNode);
      newNode.status := STATUS_DATA_STORED;
      TruthfulNew(index.Statuses(), newNode);
      IndexGrows(newNode);
      index.AddNode(newNode);
      index.FlushToDB();
    }

    /** A node for a hash that is not indexed is new to the tree, and keeps it one. */
    lemma IndexGrows(n: BlockNode)
      requires Structure() && index.Valid() && n.Wf() && n.block.hash !in index.index
      requires n.parent != null && n.parent in index.Nodes()
      ensures NewNode(State(), n) && TreeOk(index.Nodes() + {n}, bestChain.Tip())
    {
      hide BlockNode.Wf, Path, ChainView.Valid, ChainView.Tip, BlockIndex.Statuses, Rules.Reversible;
      forall m | m in index.Nodes() ensures m.block.hash != n.block.hash && m != n {
        assert index.index[m.block.hash] == m;
      }
      forall m | m in index.Nodes() + {n} ensures m.Wf() && (m.parent != null ==> m.parent in index.Nodes() + {n}) {
        assert m.Wf();
      }
    }

    lemma TruthfulNew(status: map<BlockNode, Status>, n: BlockNode)
      requires Truthful(rules, status, trusted)
      ensures Truthful(rules, status[n := STATUS_DATA_STORED], trusted)
    {}

    /** Accepts a block into the index and chooses the best chain.  Whether the block
        follows the rules for its position is a parameter, and so are the blocks whose
        check meets an error that is not a rule violation. */
    method MaybeAcceptBlock(block: Block, fastAdd: bool, contextOk: bool, faults: set<Hash>)
      returns (r: AcceptResult, ghost newNode: BlockNode?)
      requires Valid() && block.work > 0 && block.hash !in index.index
      modifies this, bestChain, bestChain.backing, index, index.Nodes()`status
      ensures Valid() && ShowsTip()
      ensures newNode == null <==>
                block.prev !in old(index.index) || old(index.index[block.prev].status.KnownInvalid()) || !contextOk
      ensures newNode == null ==>
                && State() == old(State())
                && r == Rejected(if block.prev !in old(index.index) then PreviousBlockUnknown
                                 else if old(index.index[block.prev].status.KnownInvalid()) then InvalidAncestorBlock
                                 else ContextRule)
      ensures newNode != null ==> contextOk && newNode.block == block && Step(old(State()), State(), newNode, r)
      ensures trusted == old(trusted) + if newNode != null && fastAdd && newNode.parent == old(bestChain.Tip()) then {newNode} else {}
      ensures newNode != null ==> fresh(newNode) && newNode.Wf() && newNode.parent == old(index.index[block.prev])
      ensures index.Nodes() == old(index.Nodes()) + if newNode == null then {} else {newNode}
      ensures r == Rejected(Database) <==>
                newNode != null && MeetsFault(rules, faults, WithNode(old(State()), newNode), newNode, fastAdd)
      ensures bestChain.backing == old(bestChain.backing) || fresh(bestChain.backing)
    {
      hide BlockNode.Wf, Path, TreeOk, Replay, Journal, Snapshot, Mark, Truthful, OnBranch,
        ChainView.Valid, ChainView.Tip, BlockIndex.Valid, BlockIndex.Statuses, Choice, MeetsFault, Conserved, ShowsTip;
      ConservedShows();
      var prevNode := index.LookupNode(block.prev);
      if prevNode == null {
        return Rejected(PreviousBlockUnknown), null;
      } else if prevNode.status.KnownInvalid() {
        return Rejected(InvalidAncestorBlock), null;
      }
      if !contextOk {
        return Rejected(ContextRule), null;
      }
      IndexedBy(block.prev);
      index.StatusAt(prevNode);
      ghost var t := State();
      var node := AddBlockNode(block, prevNode);
      newNode := node;
      NewNodeIsOffChain(t, node);
      r := ConnectBestChain(node, fastAdd, faults);
      ConservedShows();
    }

    lemma IndexedBy(hash: Hash)
      requires Valid() && hash in index.index
      ensures index.index[hash] in index.Nodes() && index.index[hash].Wf() && index.index[hash].block.hash == hash
    {}

    lemma NewNodeIsOffChain(t: Tree, n: BlockNode)
      requires TreeOk(t.status.Keys, t.tip) && NewNode(t, n)
      ensures t.tip.Wf() && !OnBranch(n, t.tip)
    {
      if OnBranch(n, t.tip) {
        PathInTree(t.status.Keys, t.tip, t.tip, n.height);
      }
    }
  }
}

// The state that the best chain carries along: the unspent outputs, the spend
// journal and the best state snapshot, as functions of a branch (chain.go).

module Ledgers {
  import opened BlockTree
  import opened MedianTime

  /** The consensus code that is left abstract: how a block changes the unspent
      outputs, what it spends, how that is undone, and whether a block may connect. */
  datatype Rules<!U(!new), !J(!new)> = Rules(
    genesis: U,
    connect: (U, Block) -> U,
    spent: (U, Block) -> J,
    undo: (U, Block, J) -> U,
    check: (BlockNode, U) -> bool)
  {
    /** Disconnecting a block with what it spent undoes connecting it. */
    ghost predicate Reversible() {
      forall u, b :: undo(connect(u, b), b, spent(u, b)) == u
    }
  }

  /** The unspent outputs after all blocks of a branch. */
  ghost function Replay<U(!new), J(!new)>(rules: Rules<U, J>, n: BlockNode): U
    requires n.Wf()
    decreases n.height
  {
    if n.parent == null then rules.genesis else rules.connect(Replay(rules, n.parent), n.block)
  }

  /** A block may connect to the state that its own branch leads to. */
  ghost predicate Passes<U(!new), J(!new)>(rules: Rules<U, J>, n: BlockNode)
    requires n.Wf() && n.parent != null && n.parent.Wf()
  {
    rules.check(n, Replay(rules, n.parent))
  }

  /** Blocks marked valid pass the rules on their own branch, unless they were trusted
      without a check, and blocks marked as failed do not. */
  ghost predicate Truthful<U(!new), J(!new)>(rules: Rules<U, J>, status: map<BlockNode, Status>, trusted: set<BlockNode>) {
    forall n :: n in status && n.Wf() && n.parent != null && n.parent.Wf() ==>
      && (status[n].valid && n !in trusted ==> Passes(rules, n))
      && (status[n].validateFailed ==> !Passes(rules, n))
  }

  /** A check lets a block through: it is known valid already, or no error that is not a
      rule violation is met and it passes. */
  ghost predicate Fine<U(!new), J(!new)>(rules: Rules<U, J>, status: map<BlockNode, Status>, faults: set<Hash>, n: BlockNode) {
    && n in status
    && (status[n].KnownValid()
        || (n.block.hash !in faults && n.Wf() && n.parent != null && n.parent.Wf() && Passes(rules, n)))
  }

  /** The first block of a list that a check does not let through is its k-th. */
  ghost predicate StopsFirst<U(!new), J(!new)>(rules: Rules<U, J>, status: map<BlockNode, Status>, faults: set<Hash>, a: seq<BlockNode>, k: int) {
    && 0 <= k < |a| && a[k] in status && !Fine(rules, status, faults, a[k])
    && forall i :: 0 <= i < k ==> Fine(rules, status, faults, a[i])
  }

  /** What each block of a branch above genesis spent. */
  ghost function Journal<U(!new), J(!new)>(rules: Rules<U, J>, n: BlockNode): map<Hash, J>
    requires n.Wf()
    decreases n.height
  {
    if n.parent == null then map[]
    else Journal(rules, n.parent)[n.block.hash := rules.spent(Replay(rules, n.parent), n.block)]
  }

  ghost function TotalTxns(n: BlockNode): nat
    requires n.Wf()
    decreases n.height
  {
    n.block.txCount + if n.parent == null then 0 else TotalTxns(n.parent)
  }

  /** The best state (without the difficulty bits and the size of the block). */
  datatype BestState = BestState(hash: Hash, height: int, numTxns: nat, totalTxns: int, medianTime: int)

  ghost function Snapshot(n: BlockNode): BestState
    requires n.Wf()
  {
    BestState(n.block.hash, n.height, n.block.txCount, TotalTxns(n), MedianOf(n))
  }

  // ----- What these say about the branch -----

  /** The transactions of a list of blocks. */
  function SumTxns(nodes: seq<BlockNode>): nat {
    if nodes == [] then 0 else SumTxns(nodes[..|nodes| - 1]) + nodes[|nodes| - 1].block.txCount
  }

  /** The unspent outputs after some blocks were connected in order. */
  function ConnectBlocks<U(!new), J(!new)>(rules: Rules<U, J>, u: U, nodes: seq<BlockNode>): U {
    if nodes == [] then u
    else rules.connect(ConnectBlocks(rules, u, nodes[..|nodes| - 1]), nodes[|nodes| - 1].block)
  }

  /** A best state is that of a tip: its hash, height and number of transactions, those of
      the whole branch with genesis, and the median of the last 11 timestamps. */
  ghost predicate Shows(state: BestState, tip: BlockNode)
    requires tip.Wf()
  {
    && state.hash == tip.block.hash
    && state.height == |Path(tip)| - 1
    && state.numTxns == tip.block.txCount
    && state.totalTxns == SumTxns(Path(tip))
    && IsMedian(state.medianTime, LastTimestamps(Path(tip), 11))
  }

  lemma {:induction false} TxnsOfBranch(n: BlockNode)
    requires n.Wf()
    ensures TotalTxns(n) == SumTxns(Path(n))
    decreases n.height
  {
    assert Path(n)[|Path(n)| - 1] == n;
    if n.parent != null {
      TxnsOfBranch(n.parent);
      assert Path(n)[..|Path(n)| - 1] == Path(n.parent);
    }
  }

  lemma SnapshotShows(n: BlockNode)
    requires n.Wf()
    ensures Shows(Snapshot(n), n)
  {
    hide Path, BlockNode.Wf, LastTimestamps, IsMedian, MedianOf, SumTxns;
    PathShape(n);
    TxnsOfBranch(n);
    MedianOfLast(n);
  }

  /** The unspent outputs are those after all blocks above genesis, whose outputs cannot
      be spent. */
  lemma {:induction false} OutputsOfBranch<U(!new), J(!new)>(rules: Rules<U, J>, n: BlockNode)
    requires n.Wf()
    ensures Replay(rules, n) == ConnectBlocks(rules, rules.genesis, Path(n)[1..])
    decreases n.height
  {
    if n.parent != null {
      OutputsOfBranch(rules, n.parent);
      var above := Path(n)[1..];
      assert above == Path(n.parent)[1..] + [n];
      assert above[..|above| - 1] == Path(n.parent)[1..];
    }
  }

  /** A block is checked against the unspent outputs before it. */
  lemma PassesBefore<U(!new), J(!new)>(rules: Rules<U, J>, n: BlockNode)
    requires n.Wf() && n.parent != null && n.parent.Wf()
    ensures 1 <= |Path(n)| - 1
    ensures Passes(rules, n) <==> rules.check(n, ConnectBlocks(rules, rules.genesis, Path(n)[1..|Path(n)| - 1]))
  {
    OutputsOfBranch(rules, n.parent);
    assert Path(n)[1..|Path(n)| - 1] == Path(n.parent)[1..];
  }

  /** What one more block changes. */
  lemma NextBlock<U(!new), J(!new)>(rules: Rules<U, J>, n: BlockNode)
    requires n.Wf() && n.parent != null && n.parent.Wf()
    ensures Replay(rules, n) == rules.connect(Replay(rules, n.parent), n.block)
    ensures Journal(rules, n) == Journal(rules, n.parent)[n.block.hash := rules.spent(Replay(rules, n.parent), n.block)]
    ensures TotalTxns(n) == TotalTxns(n.parent) + n.block.txCount
  {}

  /** The journal of a branch holds its own blocks only. */
  lemma {:induction false} JournalKeys<U(!new), J(!new)>(rules: Rules<U, J>, n: BlockNode, h: Hash)
    requires n.Wf() && h in Journal(rules, n)
    ensures exists i :: 0 < i < |Path(n)| && Path(n)[i].block.hash == h
    decreases n.height
  {
    if h == n.block.hash {
      assert Path(n)[|Path(n)| - 1] == n;
      assert |Path(n)| > 1;
    } else {
      JournalKeys(rules, n.parent, h);
      var i :| 0 < i < |Path(n.parent)| && Path(n.parent)[i].block.hash == h;
      assert Path(n)[i] == Path(n.parent)[i];
    }
  }

  /** The entry of a block is there for as long as the block is on the branch. */
  lemma {:induction false} JournalAt<U(!new), J(!new)>(rules: Rules<U, J>, n: BlockNode, i: nat)
    requires n.Wf() && 0 < i < |Path(n)|
    requires forall j, k :: 0 <= j < k < |Path(n)| ==> Path(n)[j].block.hash != Path(n)[k].block.hash
    ensures Path(n)[i - 1].Wf()
    ensures var m := Path(n)[i];
            m.block.hash in Journal(rules, n) && Journal(rules, n)[m.block.hash] == rules.spent(Replay(rules, Path(n)[i - 1]), m.block)
    decreases n.height
  {
    PathShape(n);
    if i < n.height {
      PathShape(n.parent);
      assert forall j :: 0 <= j < |Path(n.parent)| ==> Path(n.parent)[j] == Path(n)[j];
      JournalAt(rules, n.parent, i);
    } else {
      PathPrefix(n, i - 1);
      Links(n, i);
    }
  }
}

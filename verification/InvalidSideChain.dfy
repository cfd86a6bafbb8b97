// A run that reports "true" for a block that is not on the best chain (chain.go).

module InvalidSideChain {
  import opened BlockTree
  import opened ChainViews
  import opened Selection
  import opened Ledgers
  import opened Chain
  import opened Index
  import opened Runs

  const GENESIS := Block(Hash(0), Hash(-1), 1, 0, 1)
  const BLOCK_B := Block(Hash(1), Hash(0), 10, 1, 1)
  const BLOCK_A1 := Block(Hash(2), Hash(0), 3, 1, 1)
  const BLOCK_A2 := Block(Hash(3), Hash(2), 3, 2, 1)
  const BLOCK_C := Block(Hash(4), Hash(2), 20, 2, 1)
  const BLOCK_N := Block(Hash(5), Hash(3), 20, 3, 1)

  ghost predicate IsNode(n: BlockNode, block: Block, parent: BlockNode?) {
    n.Wf() && n.block == block && n.parent == parent
  }

  /** A genesis block with two children, one of which starts a side chain that
      branches again above it, to c and to n. */
  ghost predicate Lower(g: BlockNode, b: BlockNode, a1: BlockNode, a2: BlockNode) {
    IsNode(g, GENESIS, null) && IsNode(b, BLOCK_B, g) && IsNode(a1, BLOCK_A1, g) && IsNode(a2, BLOCK_A2, a1)
  }

  ghost predicate Base(g: BlockNode, b: BlockNode, a1: BlockNode, a2: BlockNode, c: BlockNode) {
    Lower(g, b, a1, a2) && IsNode(c, BLOCK_C, a1)
  }

  lemma Works(g: BlockNode, b: BlockNode, a1: BlockNode, a2: BlockNode, c: BlockNode)
    requires Base(g, b, a1, a2, c)
    ensures g.height == 0 && b.height == 1 && a1.height == 1 && a2.height == 2 && c.height == 2
    ensures g.workSum == 1 && b.workSum == 11 && a1.workSum == 4 && a2.workSum == 7 && c.workSum == 24
  {}

  lemma AttachedC(g: BlockNode, b: BlockNode, a1: BlockNode, a2: BlockNode, c: BlockNode)
    requires Base(g, b, a1, a2, c)
    ensures AttachNodes(c, b) == [a1, c]
  {
    Works(g, b, a1, a2, c);
    assert Path(g) == [g] && Path(b) == [g, b];
    assert Path(a1) == [g, a1] && Path(c) == [g, a1, c];
    assert Fork(a1, b) == g;
    assert Fork(c, b) == g;
  }

  lemma AttachedN(g: BlockNode, b: BlockNode, a1: BlockNode, a2: BlockNode, c: BlockNode, n: BlockNode)
    requires Base(g, b, a1, a2, c) && IsNode(n, BLOCK_N, a2)
    ensures n.workSum == 27 && AttachNodes(n, b) == [a1, a2, n]
  {
    Works(g, b, a1, a2, c);
    assert Path(g) == [g] && Path(b) == [g, b];
    assert Path(a1) == [g, a1];
    assert Path(a2) == [g, a1, a2];
    assert Path(n) == [g, a1, a2, n];
    assert Fork(a1, b) == g;
    assert Fork(a2, b) == g;
  }

  const VALID := STATUS_DATA_STORED.With(STATUS_VALID)
  const FAILED := STATUS_DATA_STORED.With(STATUS_VALIDATE_FAILED)
  const INVALID := STATUS_DATA_STORED.With(STATUS_INVALID_ANCESTOR)
  const STORED := STATUS_DATA_STORED

  /** The states of the run. */
  ghost function Tree0(g: BlockNode): Tree { Tree(map[g := VALID], g) }

  ghost function Tree1(g: BlockNode, b: BlockNode): Tree { Tree(map[g := VALID, b := VALID], b) }

  ghost function Tree2(g: BlockNode, b: BlockNode, a1: BlockNode): Tree {
    Tree(map[g := VALID, b := VALID, a1 := STORED], b)
  }

  ghost function Tree3(g: BlockNode, b: BlockNode, a1: BlockNode, a2: BlockNode): Tree {
    Tree(map[g := VALID, b := VALID, a1 := STORED, a2 := STORED], b)
  }

  ghost function Tree4(g: BlockNode, b: BlockNode, a1: BlockNode, a2: BlockNode, c: BlockNode): Tree {
    Tree(map[g := VALID, b := VALID, a1 := FAILED, a2 := STORED, c := INVALID], b)
  }

  // ----- Rules that refuse one block -----

  function Refusing(): Rules<int, int> {
    Rules(0, (u, b) => u, (u, b) => 0, (u, b, j) => u, (n: BlockNode, u) => n.block != BLOCK_A1)
  }

  function Plain(block: Block): Call { Call(block, false, true, {}) }

  /** What marks mean under these rules. */
  lemma Marks(status: map<BlockNode, Status>, n: BlockNode)
    requires Truthful(Refusing(), status, {}) && n in status && n.Wf() && n.parent != null && n.parent.Wf()
    ensures status[n].valid ==> n.block != BLOCK_A1
    ensures status[n].validateFailed ==> n.block == BLOCK_A1
  {}

  lemma NoFaults(t: Tree, n: BlockNode, call: Call)
    requires call.faults == {}
    ensures !Faults(Refusing(), t, n, call)
  {
    hide AttachNodes, NoneInvalid, BlockNode.Wf;
  }

  /** The chain is in a state in which nothing was trusted. */
  ghost predicate At(chain: BlockChain<int, int>, t: Tree)
    reads chain, chain.index, chain.index.Nodes(), chain.bestChain, chain.bestChain.backing
  {
    && chain.Valid() && chain.rules == Refusing() && chain.trusted == {}
    && chain.State() == t && Sound(t)
  }

  lemma Arrived(chain: BlockChain<int, int>, t: Tree)
    requires At(chain, t)
    ensures chain.Valid() && Sound(t) && Truthful(Refusing(), t.status, {})
    ensures chain.bestChain.Tip() == t.tip && chain.index.Nodes() == t.status.Keys
  {}

  /** A new block with a parent that is not known to be invalid. */
  ghost predicate CanFollow(t: Tree, block: Block) {
    !Indexed(t, Plain(block)) && HasGoodParent(t, Plain(block))
  }

  lemma Follow(t: Tree, block: Block, p: BlockNode)
    requires p in t.status && p.block.hash == block.prev && !t.status[p].KnownInvalid()
    requires forall m :: m in t.status ==> m.block.hash != block.hash
    ensures CanFollow(t, block)
  {}

  method Start() returns (chain: BlockChain<int, int>, ghost g: BlockNode)
    ensures IsNode(g, GENESIS, null) && At(chain, Tree0(g)) && CanFollow(Tree0(g), BLOCK_B)
    ensures fresh(chain) && fresh(chain.index) && fresh(chain.bestChain) && fresh(chain.bestChain.backing) && fresh(chain.index.Nodes())
  {
    hide Sound, TreeOk, BlockNode.Wf, Truthful, BlockChain.Conserved, BlockIndex.Valid;
    chain := new BlockChain(Refusing(), GENESIS);
    StartIsValid(chain);
    InitialIsSound(chain.State());
    g := chain.bestChain.Tip();
    Follow(chain.State(), BLOCK_B, g);
  }

  /** Submits a block that gets as far as being indexed. */
  method Push(chain: BlockChain<int, int>, block: Block, ghost t: Tree) returns (r: AcceptResult, ghost n: BlockNode, ghost t': Tree)
    requires At(chain, t) && CanFollow(t, block) && block.work > 0
    modifies chain, chain.bestChain, chain.bestChain.backing, chain.index, chain.index.Nodes()`status
    ensures At(chain, t') && Sound(t) && Sound(t') && Truthful(Refusing(), t'.status, {})
    ensures n.block == block && Step(t, t', n, r) && r != Rejected(Database)
    ensures chain.bestChain.backing == old(chain.bestChain.backing) || fresh(chain.bestChain.backing)
    ensures fresh(chain.index.Nodes() - old(chain.index.Nodes()))
  {
    hide Sound, Transition, BlockChain.Structure, BlockChain.Conserved, TreeOk, Indexed, HasGoodParent, Truthful, Step;
    IndexedByHash(chain, Plain(block));
    ghost var e;
    r, e := Accept(chain, Plain(block));
    n, t' := e.n, chain.State();
    NoFaults(t, n, Plain(block));
  }

  /** A node for a block of which the parent is known. */
  lemma ParentIs(t: Tree, n: BlockNode, p: BlockNode)
    requires Sound(t) && NewNode(t, n) && p in t.status && p.block.hash == n.block.prev
    ensures n.parent == p
  {
    assert n.Wf();
  }

  /** b extends the best chain. */
  lemma StepB(t': Tree, g: BlockNode, b: BlockNode, r: AcceptResult)
    requires IsNode(g, GENESIS, null) && b.block == BLOCK_B && Sound(Tree0(g))
    requires Step(Tree0(g), t', b, r) && Truthful(Refusing(), t'.status, {}) && r != Rejected(Database)
    ensures IsNode(b, BLOCK_B, g) && t' == Tree1(g, b) && CanFollow(t', BLOCK_A1)
  {
    hide BlockNode.Wf, Sound, Truthful;
    ParentIs(Tree0(g), b, g);
    if r.Rejected? {
      Marks(t'.status, b);
      assert false;
    }
    Follow(t', BLOCK_A1, g);
  }

  /** The side chain has less work. */
  lemma StepA1(t': Tree, g: BlockNode, b: BlockNode, a1: BlockNode, r: AcceptResult)
    requires IsNode(g, GENESIS, null) && IsNode(b, BLOCK_B, g) && a1.block == BLOCK_A1
    requires Sound(Tree1(g, b)) && Step(Tree1(g, b), t', a1, r)
    ensures IsNode(a1, BLOCK_A1, g) && t' == Tree2(g, b, a1) && CanFollow(t', BLOCK_A2)
  {
    hide Sound, AttachNodes;
    ParentIs(Tree1(g, b), a1, g);
    Follow(t', BLOCK_A2, a1);
  }

  lemma StepA2(t': Tree, g: BlockNode, b: BlockNode, a1: BlockNode, a2: BlockNode, r: AcceptResult)
    requires IsNode(g, GENESIS, null) && IsNode(b, BLOCK_B, g) && IsNode(a1, BLOCK_A1, g) && a2.block == BLOCK_A2
    requires Sound(Tree2(g, b, a1)) && Step(Tree2(g, b, a1), t', a2, r)
    ensures IsNode(a2, BLOCK_A2, a1) && t' == Tree3(g, b, a1, a2) && CanFollow(t', BLOCK_C)
  {
    hide Sound, AttachNodes;
    ParentIs(Tree2(g, b, a1), a2, a1);
    Follow(t', BLOCK_C, a1);
  }

  /** c on a1 fails because a1 does; a2, which is not part of that branch, stays
      unmarked. */
  lemma StepC(t': Tree, g: BlockNode, b: BlockNode, a1: BlockNode, a2: BlockNode, c: BlockNode, r: AcceptResult)
    requires Lower(g, b, a1, a2) && c.block == BLOCK_C && Sound(Tree3(g, b, a1, a2))
    requires Step(Tree3(g, b, a1, a2), t', c, r) && Truthful(Refusing(), t'.status, {}) && r != Rejected(Database)
    ensures IsNode(c, BLOCK_C, a1) && t' == Tree4(g, b, a1, a2, c) && CanFollow(t', BLOCK_N)
  {
    hide BlockNode.Wf, Sound, AttachNodes, Truthful, Mark;
    ParentIs(Tree3(g, b, a1, a2), c, a1);
    Works(g, b, a1, a2, c);
    AttachedC(g, b, a1, a2, c);
    var t := WithNode(Tree3(g, b, a1, a2), c);
    var a := [a1, c];
    MarkAt(t.status, a, STATUS_VALID, a1);
    BaseWf(g, b, a1, a2, c);
    Marks(t'.status, a1);
    assert !ReorgStep(t, t', c, r);
    forall k: nat ensures !InvalidBranchStep(t, t', c, r, k) {}
    var k: nat :| FailedReorgStep(t, t', c, r, k);
    if k > 0 {
      assert a[..1] == [a1] && a[..k][0] == a1;
      var passed := Mark(t.status, a[..k], STATUS_VALID);
      MarkAt(t.status, a[..k], STATUS_VALID, a1);
      MarkAt(passed, [a[k]], STATUS_VALIDATE_FAILED, a1);
      MarkAt(Mark(passed, [a[k]], STATUS_VALIDATE_FAILED), a[k + 1..], STATUS_INVALID_ANCESTOR, a1);
      assert false;
    }
    assert a[..0] == [] && a[1..] == [c];
    FailedStatus(g, b, a1, a2, c);
    Follow(t', BLOCK_N, a2);
  }

  lemma BaseWf(g: BlockNode, b: BlockNode, a1: BlockNode, a2: BlockNode, c: BlockNode)
    requires Base(g, b, a1, a2, c)
    ensures g.Wf() && b.Wf() && a1.Wf() && a2.Wf() && c.Wf()
  {}

  lemma FailedStatus(g: BlockNode, b: BlockNode, a1: BlockNode, a2: BlockNode, c: BlockNode)
    requires Base(g, b, a1, a2, c)
    ensures var added := map[g := VALID, b := VALID, a1 := STORED, a2 := STORED, c := STORED];
            Mark(Mark(Mark(added, [], STATUS_VALID), [a1], STATUS_VALIDATE_FAILED), [c], STATUS_INVALID_ANCESTOR)
            == Tree4(g, b, a1, a2, c).status
  {
    hide BlockNode.Wf;
    var added := map[g := VALID, b := VALID, a1 := STORED, a2 := STORED, c := STORED];
    assert Mark(added, [], STATUS_VALID) == added;
    assert Mark(added, [a1], STATUS_VALIDATE_FAILED) == map[g := VALID, b := VALID, a1 := FAILED, a2 := STORED, c := STORED];
  }

  /** n on a2 is reported as part of the main chain, because there is nothing to attach. */
  lemma StepN(t': Tree, g: BlockNode, b: BlockNode, a1: BlockNode, a2: BlockNode, c: BlockNode, n: BlockNode, r: AcceptResult)
    requires Base(g, b, a1, a2, c) && n.block == BLOCK_N && Sound(Tree4(g, b, a1, a2, c))
    requires Step(Tree4(g, b, a1, a2, c), t', n, r)
    ensures r == Accepted(true) && t'.tip != n && n in t'.status
  {
    hide BlockNode.Wf, Sound, AttachNodes;
    var t := Tree4(g, b, a1, a2, c);
    ParentIs(t, n, a2);
    Works(g, b, a1, a2, c);
    AttachedN(g, b, a1, a2, c, n);
    assert t.status[[a1, a2, n][0]].KnownInvalid();
    MisleadingTrue(t, t', n, r);
    StepNodes(t, t', n, r);
  }

  /** The six blocks submitted to a new chain: the last one is reported to be on the main
      chain and is not. */
  method TrueOffMainChain() returns (chain: BlockChain<int, int>, r: AcceptResult, ghost n: BlockNode)
    ensures chain.Valid() && r == Accepted(true)
    ensures n in chain.index.Nodes() && n.block == BLOCK_N && chain.bestChain.Tip() != n
  {
    hide At, Sound, Step, IsNode, CanFollow, Truthful, Tree0, Tree1, Tree2, Tree3, Tree4;
    ghost var t, g, b, a1, a2, c;
    chain, g := Start();
    r, b, t := Push(chain, BLOCK_B, Tree0(g));
    StepB(t, g, b, r);
    r, a1, t := Push(chain, BLOCK_A1, t);
    StepA1(t, g, b, a1, r);
    r, a2, t := Push(chain, BLOCK_A2, t);
    StepA2(t, g, b, a1, a2, r);
    r, c, t := Push(chain, BLOCK_C, t);
    StepC(t, g, b, a1, a2, c, r);
    r, n, t := Push(chain, BLOCK_N, t);
    StepN(t, g, b, a1, a2, c, n, r);
    Arrived(chain, t);
  }
}

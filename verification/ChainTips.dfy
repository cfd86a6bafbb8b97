// The tips of the block tree, and the blocks at regular heights of a branch
// (blockindex.go, chain.go).

module ChainTips {
  import opened BlockTree
  import opened ChainViews
  import opened Selection
  import opened Index

  /** An indexed node off the best chain without children. */
  ghost predicate IsInactiveTip(nodes: set<BlockNode>, tip: BlockNode, n: BlockNode)
    requires tip.Wf()
  {
    && n in nodes && !OnBranch(n, tip)
    && forall m :: m in nodes ==> m.parent != n
  }

  ghost predicate OffChain(nodes: set<BlockNode>, tip: BlockNode, n: BlockNode)
    requires tip.Wf()
  {
    n in nodes && !OnBranch(n, tip)
  }

  /** The parent of a block on a branch is on it, and the root is on every branch. */
  lemma OffChainParent(nodes: set<BlockNode>, tip: BlockNode, n: BlockNode)
    requires TreeOk(nodes, tip) && n in nodes
    ensures n.parent != null && !OnBranch(n.parent, tip) ==> !OnBranch(n, tip)
    ensures !OnBranch(n, tip) ==> n.parent != null && n.parent in nodes
  {
    hide BlockNode.Wf, Path;
    TreeWf(nodes, tip, n);
    PathShape(tip);
    if OnBranch(n, tip) && n.height > 0 {
      Links(tip, n.height);
    } else if OnBranch(n, tip) {
      PathInTree(nodes, tip, tip, 0);
    } else if n.parent == null {
      PathInTree(nodes, tip, tip, 0);
    }
  }

  /** Collects the blocks off the best chain, and their parents, by hash. */
  method CollectOrphans(index: BlockIndex, bestChain: ChainView) returns (orphans: map<Hash, BlockNode>, orphanParent: map<Hash, BlockNode>)
    requires index.Valid() && bestChain.Valid() && bestChain.Tip() != null && TreeOk(index.Nodes(), bestChain.Tip())
    ensures forall h :: h in orphans ==> orphans[h].block.hash == h && OffChain(index.Nodes(), bestChain.Tip(), orphans[h])
    ensures forall n :: OffChain(index.Nodes(), bestChain.Tip(), n) ==> n.block.hash in orphans && orphans[n.block.hash] == n
    ensures forall h :: h in orphanParent <==>
              exists n :: OffChain(index.Nodes(), bestChain.Tip(), n) && n.parent != null && n.parent.block.hash == h
  {
    hide BlockNode.Wf, Path, OnBranch, TreeOk, ChainView.Valid;
    orphans, orphanParent := map[], map[];
    ghost var nodes, tip := index.Nodes(), bestChain.Tip();
    var todo := index.index.Values;
    while todo != {}
      invariant todo <= nodes
      invariant forall h :: h in orphans ==> orphans[h].block.hash == h && OffChain(nodes, tip, orphans[h])
      invariant forall n :: OffChain(nodes, tip, n) && n !in todo ==> n.block.hash in orphans && orphans[n.block.hash] == n
      invariant forall h :: h in orphanParent ==>
                  exists n :: OffChain(nodes, tip, n) && n.parent != null && n.parent.block.hash == h
      invariant forall n :: OffChain(nodes, tip, n) && n !in todo ==> n.parent != null && n.parent.block.hash in orphanParent
      decreases todo
    {
      var node :| node in todo;
      OffChainParent(nodes, tip, node);
      if !bestChain.Contains(node) {
        assert OffChain(nodes, tip, node);
        orphans := orphans[node.block.hash := node];
        orphanParent := orphanParent[node.parent.block.hash := node.parent];
      }
      todo := todo - {node};
    }
  }

  /** The blocks of the first map whose hash is not in the second. */
  method SelectTips(orphans: map<Hash, BlockNode>, orphanParent0: map<Hash, BlockNode>) returns (tips: seq<BlockNode>)
    requires forall h :: h in orphans ==> orphans[h].block.hash == h
    ensures forall n :: n in tips <==>
              n.block.hash in orphans && orphans[n.block.hash] == n && n.block.hash !in orphanParent0
    ensures forall i, j :: 0 <= i < j < |tips| ==> tips[i] != tips[j]
  {
    var orphanParent := orphanParent0;
    tips := [];
    ByHash(orphans);
    var todo := orphans.Values;
    while todo != {}
      invariant todo <= orphans.Values
      invariant forall n :: n in todo ==> (n.block.hash in orphanParent <==> n.block.hash in orphanParent0)
      invariant forall n :: n in tips <==> n in orphans.Values && n !in todo && n.block.hash !in orphanParent0
      invariant forall i, j :: 0 <= i < j < |tips| ==> tips[i] != tips[j]
      decreases todo
    {
      var orphan :| orphan in todo;
      if orphan.block.hash !in orphanParent {
        tips := tips + [orphan];
      }
      orphanParent := orphanParent - {orphan.block.hash};
      todo := todo - {orphan};
    }
  }

  /** The blocks off the best chain that no other block builds on. */
  method InactiveTips(index: BlockIndex, bestChain: ChainView) returns (tips: seq<BlockNode>)
    requires index.Valid() && bestChain.Valid() && bestChain.Tip() != null && TreeOk(index.Nodes(), bestChain.Tip())
    ensures forall n :: n in tips <==> IsInactiveTip(index.Nodes(), bestChain.Tip(), n)
    ensures forall i, j :: 0 <= i < j < |tips| ==> tips[i] != tips[j]
  {
    hide BlockNode.Wf, Path, OnBranch, TreeOk, ChainView.Valid, ChainView.Tip, IsInactiveTip;
    ghost var nodes, tip := index.Nodes(), bestChain.Tip();
    var orphans, orphanParent := CollectOrphans(index, bestChain);
    tips := SelectTips(orphans, orphanParent);
    forall n ensures n in tips <==> IsInactiveTip(nodes, tip, n) {
      if n in nodes {
        TipIffNoChild(nodes, tip, n, orphanParent.Keys);
      }
      InactiveIsOffChain(nodes, tip, n);
    }
  }

  lemma ByHash(m: map<Hash, BlockNode>)
    requires forall h :: h in m ==> m[h].block.hash == h
    ensures forall n :: n in m.Values ==> n.block.hash in m && m[n.block.hash] == n
  {}

  lemma InactiveIsOffChain(nodes: set<BlockNode>, tip: BlockNode, n: BlockNode)
    requires tip.Wf()
    ensures IsInactiveTip(nodes, tip, n) ==> OffChain(nodes, tip, n)
  {}

  /** A block off the chain is a tip exactly if its hash is not that of a parent of a
      block off the chain: hashes are unique, and children of blocks off the chain are
      off the chain. */
  lemma TipIffNoChild(nodes: set<BlockNode>, tip: BlockNode, n: BlockNode, parents: set<Hash>)
    requires TreeOk(nodes, tip) && n in nodes
    requires forall h :: h in parents <==> exists m :: OffChain(nodes, tip, m) && m.parent != null && m.parent.block.hash == h
    ensures IsInactiveTip(nodes, tip, n) <==> OffChain(nodes, tip, n) && n.block.hash !in parents
  {
    hide BlockNode.Wf, Path, OnBranch;
    if OffChain(nodes, tip, n) {
      forall m | m in nodes && m.parent == n ensures n.block.hash in parents {
        OffChainParent(nodes, tip, m);
        assert OffChain(nodes, tip, m);
      }
      forall m | OffChain(nodes, tip, m) && m.parent != null && m.parent.block.hash == n.block.hash ensures m.parent == n {
        assert m.Wf();
      }
    }
  }

  /** Every indexed block is an ancestor, or the same, of the best tip or of an inactive
      tip. */
  lemma {:induction false} TipsCover(nodes: set<BlockNode>, tip: BlockNode, n: BlockNode, bound: nat) returns (t: BlockNode)
    requires TreeOk(nodes, tip) && n in nodes
    requires forall m :: m in nodes ==> m.height <= bound
    ensures t == tip || IsInactiveTip(nodes, tip, t)
    ensures t.Wf() && OnBranch(n, t)
    decreases bound - n.height
  {
    hide BlockNode.Wf, Path;
    TreeWf(nodes, tip, n);
    PathShape(n);
    if OnBranch(n, tip) {
      t := tip;
    } else if m :| m in nodes && m.parent == n {
      TreeWf(nodes, tip, m);
      ParentWf(m);
      t := TipsCover(nodes, tip, m, bound);
      OnBranchIsPrefix(m, t);
      PathShape(m);
      Links(m, m.height);
      assert Path(t)[n.height] == Path(t)[..m.height + 1][n.height];
    } else {
      t := n;
      assert Path(n)[n.height] == n;
    }
  }

  datatype TipStatus = StatusUnknown | StatusActive | StatusInvalid | StatusValidFork

  datatype ChainTip = ChainTip(height: int, blockHash: Hash, branchLen: int, status: TipStatus)

  /** What is reported for a tip: the branch length is the number of its blocks that
      are not on the best chain. */
  ghost predicate Describes(r: ChainTip, n: BlockNode, tip: BlockNode)
    requires n.Wf() && tip.Wf()
    reads n
  {
    && r.height == n.height && r.blockHash == n.block.hash
    && r.branchLen == |AttachNodes(n, tip)|
    && r.status == if OnBranch(n, tip) then StatusActive
                   else if n.status.KnownInvalid() then StatusInvalid
                   else if n.status.dataStored then StatusValidFork
                   else StatusUnknown
  }

  /** The block is an ancestor of one of the tips, or is it. */
  ghost predicate Covered(n: BlockNode, tips: seq<BlockNode>) {
    exists t :: t in tips && t.Wf() && OnBranch(n, t)
  }

  /** The heights in an index are bounded. */
  lemma {:induction false} HeightBound(nodes: set<BlockNode>) returns (bound: nat)
    ensures forall n :: n in nodes ==> n.height <= bound
    decreases |nodes|
  {
    bound := 0;
    if nodes != {} {
      var n :| n in nodes;
      bound := HeightBound(nodes - {n});
      if n.height > bound {
        bound := n.height;
      }
    }
  }

  /** The best tip, after all inactive ones. */
  ghost predicate AllTips(nodes: set<BlockNode>, tip: BlockNode, tips: seq<BlockNode>)
    requires tip.Wf()
  {
    && tips != [] && tips[|tips| - 1] == tip
    && (forall n :: n in tips[..|tips| - 1] ==> IsInactiveTip(nodes, tip, n))
    && (forall n :: n in nodes && IsInactiveTip(nodes, tip, n) ==> n in tips[..|tips| - 1])
  }

  lemma AllCovered(nodes: set<BlockNode>, tip: BlockNode, tips: seq<BlockNode>)
    requires TreeOk(nodes, tip) && tip.Wf() && AllTips(nodes, tip, tips)
    ensures forall n :: n in nodes ==> Covered(n, tips)
  {
    hide BlockNode.Wf, TreeOk, OnBranch;
    var bound := HeightBound(nodes);
    forall n | n in nodes ensures Covered(n, tips) {
      var t := TipsCover(nodes, tip, n, bound);
      assert t == tips[|tips| - 1] || t in tips[..|tips| - 1];
    }
  }

  lemma TipsIndexed(nodes: set<BlockNode>, tip: BlockNode, tips: seq<BlockNode>)
    requires TreeOk(nodes, tip) && tip.Wf() && AllTips(nodes, tip, tips)
    ensures forall i :: 0 <= i < |tips| ==> tips[i] in nodes
  {
    hide BlockNode.Wf, OnBranch;
    forall i | 0 <= i < |tips| ensures tips[i] in nodes {
      if i < |tips| - 1 {
        var t := tips[..|tips| - 1][i];
        assert t in tips[..|tips| - 1] && IsInactiveTip(nodes, tip, t);
      }
    }
  }

  /** All tips: the inactive ones, and the best tip last.  They cover the index. */
  method ChainTips(index: BlockIndex, bestChain: ChainView) returns (chainTips: seq<ChainTip>, tips: seq<BlockNode>)
    requires index.Valid() && bestChain.Valid() && bestChain.Tip() != null && TreeOk(index.Nodes(), bestChain.Tip())
    ensures |chainTips| == |tips| && AllTips(index.Nodes(), bestChain.Tip(), tips)
    ensures forall i :: 0 <= i < |tips| ==> tips[i].Wf() && Describes(chainTips[i], tips[i], bestChain.Tip())
    ensures forall n :: n in index.Nodes() ==> Covered(n, tips)
    ensures chainTips[|tips| - 1].status == StatusActive
    ensures forall i :: 0 <= i < |tips| - 1 ==>
              && (tips[i].status.KnownInvalid() ==> chainTips[i].status == StatusInvalid)
              && (!tips[i].status.KnownInvalid() && tips[i].status.dataStored ==> chainTips[i].status == StatusValidFork)
  {
    hide BlockNode.Wf, Path, OnBranch, TreeOk, AttachNodes, Fork, Covered, IsInactiveTip, ChainView.Valid, ChainView.Tip, BlockIndex.Valid;
    var inactive := InactiveTips(index, bestChain);
    tips := inactive + [bestChain.Tip()];
    assert tips[..|tips| - 1] == inactive;
    AllCovered(index.Nodes(), bestChain.Tip(), tips);
    TipsIndexed(index.Nodes(), bestChain.Tip(), tips);
    chainTips := [];
    var i := 0;
    while i < |tips|
      invariant 0 <= i == |chainTips| <= |tips|
      invariant forall j :: 0 <= j < i ==> tips[j].Wf() && Describes(chainTips[j], tips[j], bestChain.Tip())
    {
      var tip := tips[i];
      TreeWf(index.Nodes(), bestChain.Tip(), tip);
      var status :=
        if bestChain.Contains(tip) then StatusActive
        else if tip.status.KnownInvalid() then StatusInvalid
        else if tip.status.dataStored then StatusValidFork
        else StatusUnknown;
      var fork := bestChain.FindFork(tip);
      BranchLength(index.Nodes(), bestChain.Tip(), tip);
      chainTips := chainTips + [ChainTip(tip.height, tip.block.hash, tip.height - fork.height, status)];
      i := i + 1;
    }
    forall i | 0 <= i < |tips| ensures ReportedAs(tips[i], chainTips[i], i == |tips| - 1) {
      TipReport(index.Nodes(), bestChain.Tip(), tips, i, chainTips[i]);
    }
  }

  /** The status by what is known of a tip: the best tip is active, and of the others those
      with a known invalid mark are invalid. */
  ghost predicate ReportedAs(n: BlockNode, r: ChainTip, best: bool)
    reads n
  {
    if best then r.status == StatusActive
    else
      && (n.status.KnownInvalid() ==> r.status == StatusInvalid)
      && (!n.status.KnownInvalid() && n.status.dataStored ==> r.status == StatusValidFork)
  }

  lemma TipReport(nodes: set<BlockNode>, tip: BlockNode, tips: seq<BlockNode>, i: nat, r: ChainTip)
    requires tip.Wf() && AllTips(nodes, tip, tips) && i < |tips| && tips[i].Wf() && Describes(r, tips[i], tip)
    ensures ReportedAs(tips[i], r, i == |tips| - 1)
  {
    hide BlockNode.Wf, Path;
    PathShape(tip);
    if i < |tips| - 1 {
      assert tips[..|tips| - 1][i] in tips[..|tips| - 1];
      assert IsInactiveTip(nodes, tip, tips[..|tips| - 1][i]);
    } else {
      assert Path(tip)[tip.height] == tip;
    }
  }

  lemma BranchLength(nodes: set<BlockNode>, tip: BlockNode, n: BlockNode)
    requires TreeOk(nodes, tip) && n in nodes
    ensures n.Wf() && tip.Wf() && Fork(n, tip) != null && n.height - Fork(n, tip).height == |AttachNodes(n, tip)|
  {
    hide BlockNode.Wf, Path;
    ForkExists(nodes, tip, n);
    PathShape(n);
  }
}

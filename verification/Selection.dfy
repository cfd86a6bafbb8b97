// Best chain selection as a transition system: what accepting one block may do to
// the tree of blocks, their status and the tip, and what every run keeps
// (accept.go, chain.go).

module Selection {
  import opened BlockTree
  import opened ChainViews

  /** The status of every indexed node, and the tip of the best chain. */
  datatype Tree = Tree(status: map<BlockNode, Status>, tip: BlockNode)

  datatype Error =
    | PreviousBlockUnknown
    | InvalidAncestorBlock
    | ContextRule     // a rule that depends on the position in the chain only
    | ConnectRule     // a rule that is checked when a block is connected
    | Database        // an error that is not a rule violation
    | Assertion       // one of the defensive checks of the chain code

  datatype AcceptResult = Accepted(isMainChain: bool) | Rejected(error: Error)

  /** Well-formed nodes with their ancestors. */
  ghost predicate Closed(nodes: set<BlockNode>) {
    forall n {:trigger n.Wf()} :: n in nodes ==> n.Wf() && (n.parent != null ==> n.parent in nodes)
  }

  /** The index is a tree: closed under parents, with one root and unique hashes. */
  ghost predicate TreeOk(nodes: set<BlockNode>, tip: BlockNode) {
    && tip in nodes
    && Closed(nodes)
    && (forall n, m :: n in nodes && m in nodes && n.parent == null && m.parent == null ==> n == m)
    && (forall n, m :: n in nodes && m in nodes && n.block.hash == m.block.hash ==> n == m)
  }

  lemma {:induction false} PathInTree(nodes: set<BlockNode>, tip: BlockNode, n: BlockNode, h: int)
    requires TreeOk(nodes, tip) && n in nodes && 0 <= h < |Path(n)|
    ensures Path(n)[h] in nodes
    ensures Path(n)[0].parent == null
    decreases n.height
  {
    PathShape(n);
    if h < n.height {
      PathInTree(nodes, tip, n.parent, h);
    } else if n.parent != null {
      PathShape(n.parent);
      PathInTree(nodes, tip, n.parent, n.parent.height);
    }
  }

  /** Any two branches of the tree share their root, so they have a fork. */
  lemma ForkExists(nodes: set<BlockNode>, tip: BlockNode, n: BlockNode)
    requires TreeOk(nodes, tip) && n in nodes
    ensures Fork(n, tip) != null && OnBranch(Fork(n, tip), n) && OnBranch(Fork(n, tip), tip)
    ensures Fork(n, tip).Wf()
  {
    ForkIsHighestCommon(n, tip);
    PathInTree(nodes, tip, n, 0);
    PathInTree(nodes, tip, tip, 0);
    assert Branch(n)[0] == Branch(tip)[0];
    OnBranchIsPrefix(Fork(n, tip), n);
  }

  /** The blocks of the branch of n that are not on the branch of tip, lowest first. */
  ghost function AttachNodes(n: BlockNode, tip: BlockNode): seq<BlockNode>
    requires n.Wf() && tip.Wf()
  {
    var fork := Fork(n, tip);
    if fork != null && 0 <= fork.height < |Path(n)| then Path(n)[fork.height + 1..] else Path(n)
  }

  /** The blocks of a branch above a fork, from the tip down. */
  ghost predicate IsDetachList(detach: seq<BlockNode>, tip: BlockNode, fork: BlockNode)
    requires tip.Wf()
  {
    && OnBranch(fork, tip)
    && |detach| == |Path(tip)| - 1 - fork.height
    && forall i :: 0 <= i < |detach| ==> detach[i] == Path(tip)[|Path(tip)| - 1 - i]
  }

  /** A detach list follows parents from the tip to the fork. */
  lemma DetachStart(detach: seq<BlockNode>, tip: BlockNode, fork: BlockNode)
    requires tip.Wf() && IsDetachList(detach, tip, fork)
    ensures fork.Wf() && tip == if detach == [] then fork else detach[0]
  {
    hide BlockNode.Wf, Path;
    PathShape(tip);
    assert Path(tip)[|Path(tip)| - 1] == tip;
  }

  lemma DetachLink(detach: seq<BlockNode>, tip: BlockNode, fork: BlockNode, i: nat)
    requires tip.Wf() && IsDetachList(detach, tip, fork) && i < |detach|
    ensures detach[i].Wf() && OnBranch(detach[i], tip)
    ensures detach[i].parent == if i + 1 < |detach| then detach[i + 1] else fork
    ensures detach[i].parent != null && detach[i].parent.Wf()
  {
    hide BlockNode.Wf, Path;
    PathShape(tip);
    Links(tip, |Path(tip)| - 1 - i);
  }

  // ----- The transitions -----

  ghost function Mark(status: map<BlockNode, Status>, nodes: seq<BlockNode>, flags: Status): (r: map<BlockNode, Status>)
    ensures r.Keys == status.Keys
  {
    map n | n in status :: if n in nodes then status[n].With(flags) else status[n]
  }

  /** The statuses once a new node is indexed. */
  ghost function Added(t: Tree, n: BlockNode): map<BlockNode, Status> {
    t.status[n := STATUS_DATA_STORED]
  }

  ghost function WithNode(t: Tree, n: BlockNode): Tree {
    Tree(Added(t, n), t.tip)
  }

  /** The new block extends the best chain. */
  ghost predicate ExtendStep(t: Tree, t': Tree, n: BlockNode, r: AcceptResult) {
    match r
    case Accepted(isMainChain) => isMainChain && t' == Tree(Mark(t.status, [n], STATUS_VALID), n)
    case Rejected(ConnectRule) => t' == Tree(Mark(t.status, [n], STATUS_VALIDATE_FAILED), t.tip)
    case Rejected(error) => error == Database && t' == Tree(t.status, t.tip)
  }

  /** No block of a list is known to be invalid. */
  ghost predicate NoneInvalid(status: map<BlockNode, Status>, nodes: seq<BlockNode>) {
    forall i :: 0 <= i < |nodes| && nodes[i] in status ==> !status[nodes[i]].KnownInvalid()
  }

  /** The highest known invalid block of a list is its k-th. */
  ghost predicate HighestInvalid(status: map<BlockNode, Status>, nodes: seq<BlockNode>, k: int) {
    && 0 <= k < |nodes| && nodes[k] in status && status[nodes[k]].KnownInvalid()
    && NoneInvalid(status, nodes[k + 1..])
  }

  /** The new block completes a side chain with known invalid blocks: those above the
      highest one are marked, nothing else happens. */
  ghost predicate InvalidBranchStep(t: Tree, t': Tree, n: BlockNode, r: AcceptResult, k: nat)
    requires n.Wf() && t.tip.Wf()
  {
    var a := AttachNodes(n, t.tip);
    && HighestInvalid(t.status, a, k)
    && r == Accepted(true)
    && t' == Tree(Mark(t.status, a[k + 1..], STATUS_INVALID_ANCESTOR), t.tip)
  }

  /** Checking a list of blocks stops at its k-th: the ones before it passed, and it
      is marked as failed and the ones after it as having an invalid ancestor, unless
      the error was not a rule violation. */
  ghost predicate ChecksFailed(before: map<BlockNode, Status>, after: map<BlockNode, Status>, nodes: seq<BlockNode>, k: int, error: Error) {
    && 0 <= k < |nodes| && nodes[k] in before && !before[nodes[k]].KnownValid()
    && var passed := Mark(before, nodes[..k], STATUS_VALID);
       match error
       case ConnectRule => after == Mark(Mark(passed, [nodes[k]], STATUS_VALIDATE_FAILED), nodes[k + 1..], STATUS_INVALID_ANCESTOR)
       case _ => error == Database && after == passed
  }

  /** The side chain fails at its k-th block. */
  ghost predicate FailedReorgStep(t: Tree, t': Tree, n: BlockNode, r: AcceptResult, k: nat)
    requires n.Wf() && t.tip.Wf()
  {
    var a := AttachNodes(n, t.tip);
    && NoneInvalid(t.status, a)
    && r.Rejected? && t'.tip == t.tip && ChecksFailed(t.status, t'.status, a, k, r.error)
  }

  /** The side chain becomes the best chain. */
  ghost predicate ReorgStep(t: Tree, t': Tree, n: BlockNode, r: AcceptResult)
    requires n.Wf() && t.tip.Wf()
  {
    var a := AttachNodes(n, t.tip);
    && NoneInvalid(t.status, a)
    && r == Accepted(true)
    && t' == Tree(Mark(t.status, a, STATUS_VALID), n)
  }

  /** A node that is not indexed yet, with an indexed parent and a hash of its own. */
  ghost predicate NewNode(t: Tree, n: BlockNode) {
    && n.Wf() && n !in t.status && n.parent != null && n.parent in t.status
    && forall m :: m in t.status ==> m.block.hash != n.block.hash
  }

  /** How the best chain may change once a new node is indexed. */
  ghost predicate Choice(t: Tree, t': Tree, n: BlockNode, r: AcceptResult)
    requires n.Wf() && t.tip.Wf()
  {
    if n.parent == t.tip then
      ExtendStep(t, t', n, r)
    else if n.workSum <= t.tip.workSum then
      r == Accepted(false) && t' == t
    else
      || ReorgStep(t, t', n, r)
      || (exists k: nat :: FailedReorgStep(t, t', n, r, k))
      || (exists k: nat :: InvalidBranchStep(t, t', n, r, k))
  }

  /** What accepting a new node may do, with the result it reports. */
  ghost predicate Step(t: Tree, t': Tree, n: BlockNode, r: AcceptResult) {
    && t.tip.Wf() && NewNode(t, n) && !t.status[n.parent].KnownInvalid()
    && Choice(WithNode(t, n), t', n, r)
  }

  // ----- Invariants -----

  /** What the statuses say is true: blocks known valid have valid ancestors and are
      not known invalid, and every block marked for its ancestors has one that
      failed. */
  ghost predicate StatusSound(status: map<BlockNode, Status>)
    requires Closed(status.Keys)
  {
    forall n {:trigger n.Wf()} :: n in status ==> n.Wf() && NodeSound(status, n)
  }

  ghost predicate NodeSound(status: map<BlockNode, Status>, n: BlockNode)
    requires n in status && n.Wf() && (n.parent != null ==> n.parent in status)
  {
    && status[n].dataStored
    && (status[n].KnownValid() ==>
          !status[n].KnownInvalid() && (n.parent != null ==> status[n.parent].KnownValid()))
    && (status[n].invalidAncestor ==> FailedAncestor(status, n))
  }

  /** The index is a tree with sound statuses, and the best chain is known valid. */
  ghost predicate Sound(t: Tree) {
    && TreeOk(t.status.Keys, t.tip)
    && StatusSound(t.status)
    && t.status[t.tip].KnownValid()
  }

  ghost predicate FailedAncestor(status: map<BlockNode, Status>, n: BlockNode)
    requires n.Wf()
  {
    exists h :: 0 <= h < |Path(n)| - 1 && Path(n)[h] in status && status[Path(n)[h]].validateFailed
  }

  /** The node or one of its ancestors is known to be invalid. */
  ghost predicate HasInvalid(status: map<BlockNode, Status>, n: BlockNode)
    requires n.Wf()
  {
    exists h :: 0 <= h < |Path(n)| && Path(n)[h] in status && status[Path(n)[h]].KnownInvalid()
  }

  /** Only branches with a known invalid block have more work than the best chain: the
      works of their blocks add up to more. */
  ghost predicate Heaviest(t: Tree)
    requires Sound(t)
  {
    forall n {:trigger n.Wf()} :: n in t.status && n.Wf() && SumWork(Path(n)) > SumWork(Path(t.tip)) ==> HasInvalid(t.status, n)
  }

  /** The same by the work that the nodes keep. */
  ghost predicate HeaviestByField(t: Tree)
    requires Sound(t)
  {
    forall n :: n in t.status && n.workSum > t.tip.workSum ==> HasInvalid(t.status, n)
  }

  lemma WorkIsKept(t: Tree)
    requires Sound(t)
    ensures Heaviest(t) <==> HeaviestByField(t)
  {
    hide Path, HasInvalid, SumWork, BlockNode.Wf;
    WorkOfBranch(t.tip);
    forall n | n in t.status ensures n.Wf() && n.workSum == SumWork(Path(n)) {
      assert n.Wf();
      WorkOfBranch(n);
    }
  }

  /** Marking one more block of a list. */
  lemma MarkStep(status: map<BlockNode, Status>, nodes: seq<BlockNode>, i: nat, flags: Status)
    requires i < |nodes| && nodes[i] in status
    ensures var m := Mark(status, nodes[..i], flags);
            m[nodes[i] := m[nodes[i]].With(flags)] == Mark(status, nodes[..i + 1], flags)
  {
    assert nodes[..i + 1] == nodes[..i] + [nodes[i]];
  }

  // ----- Marking keeps the statuses sound -----

  /** A list of blocks in which each is the parent of the next. */
  ghost predicate Linked(nodes: seq<BlockNode>) {
    forall i :: 0 < i < |nodes| ==> nodes[i].parent == nodes[i - 1]
  }

  lemma MarkValidSound(status: map<BlockNode, Status>, a: seq<BlockNode>)
    requires Closed(status.Keys) && StatusSound(status) && Linked(a)
    requires forall i :: 0 <= i < |a| ==> a[i] in status
    requires NoneInvalid(status, a)
    requires a != [] ==> a[0].Wf() && a[0].parent != null && status[a[0].parent].KnownValid()
    ensures StatusSound(Mark(status, a, STATUS_VALID))
  {
    hide BlockNode.Wf, Path;
    var r := Mark(status, a, STATUS_VALID);
    forall n | n in r ensures n.Wf() && NodeSound(r, n) {
      assert n.Wf() && NodeSound(status, n);
      if n in a {
        var i :| 0 <= i < |a| && a[i] == n;
        if i > 0 { assert a[i].parent == a[i - 1] && a[i - 1] in a; }
      }
    }
  }

  lemma MarkFailedSound(status: map<BlockNode, Status>, n: BlockNode)
    requires Closed(status.Keys) && StatusSound(status)
    requires n in status && !status[n].KnownValid()
    ensures StatusSound(Mark(status, [n], STATUS_VALIDATE_FAILED))
  {
    hide BlockNode.Wf, Path;
    var r := Mark(status, [n], STATUS_VALIDATE_FAILED);
    forall m | m in r ensures m.Wf() && NodeSound(r, m) {
      assert m.Wf() && NodeSound(status, m);
    }
  }

  lemma MarkDescendantsSound(status: map<BlockNode, Status>, a: seq<BlockNode>)
    requires Closed(status.Keys) && StatusSound(status)
    requires forall i :: 0 <= i < |a| ==>
               a[i] in status && a[i].Wf() && !status[a[i]].KnownValid() && FailedAncestor(status, a[i])
    ensures StatusSound(Mark(status, a, STATUS_INVALID_ANCESTOR))
  {
    hide BlockNode.Wf, Path;
    var r := Mark(status, a, STATUS_INVALID_ANCESTOR);
    forall m | m in r ensures m.Wf() && NodeSound(r, m) {
      assert m.Wf() && NodeSound(status, m);
      if m in a {
        assert FailedAncestor(status, m);
      }
    }
  }

  /** The blocks to attach link the fork to the node, and are off the best chain. */
  lemma AttachShape(nodes: set<BlockNode>, tip: BlockNode, n: BlockNode)
    requires TreeOk(nodes, tip) && n in nodes && !OnBranch(n, tip)
    ensures var a, f := AttachNodes(n, tip), Fork(n, tip);
            && f != null && f in nodes && OnBranch(f, tip)
            && |a| == n.height - f.height && |a| > 0 && a[|a| - 1] == n && a[0].parent == f && Linked(a)
            && forall i :: 0 <= i < |a| ==>
                 a[i] in nodes && a[i].height == f.height + 1 + i < |Path(n)| && a[i] == Path(n)[a[i].height] && !OnBranch(a[i], tip)
  {
    hide BlockNode.Wf, Path, Fork, OnBranch, AttachNodes, TreeOk;
    TreeWf(nodes, tip, n);
    AttachSize(nodes, tip, n);
    var a, f := AttachNodes(n, tip), Fork(n, tip);
    forall i | 0 <= i < |a|
      ensures a[i] in nodes && a[i].height == f.height + 1 + i && a[i] == Path(n)[f.height + 1 + i]
      ensures a[i].parent == (if i == 0 then f else a[i - 1]) && !OnBranch(a[i], tip)
    {
      AttachAt(nodes, tip, n, i);
    }
    AttachAt(nodes, tip, n, 0);
  }

  lemma AttachSize(nodes: set<BlockNode>, tip: BlockNode, n: BlockNode)
    requires TreeOk(nodes, tip) && n in nodes && !OnBranch(n, tip)
    ensures var a, f := AttachNodes(n, tip), Fork(n, tip);
            && f != null && f in nodes && OnBranch(f, tip) && OnBranch(f, n) && 0 <= f.height < n.height
            && |Path(n)| == n.height + 1 && Path(n)[n.height] == n && a == Path(n)[f.height + 1..]
  {
    hide BlockNode.Wf, Path, Fork;
    ForkExists(nodes, tip, n);
    PathShape(n);
    PathInTree(nodes, tip, n, Fork(n, tip).height);
  }

  lemma TreeWf(nodes: set<BlockNode>, tip: BlockNode, n: BlockNode)
    requires TreeOk(nodes, tip) && n in nodes
    ensures n.Wf() && tip.Wf()
  {}

  lemma AttachAt(nodes: set<BlockNode>, tip: BlockNode, n: BlockNode, i: nat)
    requires TreeOk(nodes, tip) && n in nodes && !OnBranch(n, tip) && i < |AttachNodes(n, tip)|
    ensures var a, f := AttachNodes(n, tip), Fork(n, tip);
            && f != null && 0 <= f.height && f.height + 1 + i < |Path(n)|
            && a[i] == Path(n)[f.height + 1 + i] && a[i] in nodes && a[i].height == f.height + 1 + i
            && a[i].parent == (if i == 0 then f else a[i - 1]) && !OnBranch(a[i], tip)
  {
    hide BlockNode.Wf, Path, Fork, TreeOk;
    TreeWf(nodes, tip, n);
    AttachSize(nodes, tip, n);
    ForkIsHighestCommon(n, tip);
    var h := Fork(n, tip).height + 1 + i;
    PathInTree(nodes, tip, n, h);
    Links(n, h);
    PathShape(n);
    assert h < |Branch(tip)| ==> Branch(n)[h] != Branch(tip)[h];
  }

  /** Blocks above a block that is not known valid are not known valid either. */
  lemma {:induction false} ValidIsClosed(status: map<BlockNode, Status>, a: seq<BlockNode>, k: nat, i: nat)
    requires Closed(status.Keys) && StatusSound(status) && Linked(a)
    requires k <= i < |a| && a[k] in status && a[i] in status && !status[a[k]].KnownValid()
    ensures !status[a[i]].KnownValid()
  {
    hide BlockNode.Wf, Path, FailedAncestor;
    if k < i {
      assert a[i].Wf() && NodeSound(status, a[i]) && a[i].parent == a[i - 1];
      ValidIsClosed(status, a, k, i - 1);
    }
  }

  /** A new block leaves the index a tree with sound statuses. */
  lemma AddedSound(t: Tree, n: BlockNode)
    requires Sound(t) && NewNode(t, n)
    ensures TreeOk(Added(t, n).Keys, t.tip) && TreeOk(Added(t, n).Keys, n)
    ensures Closed(Added(t, n).Keys) && StatusSound(Added(t, n))
    ensures Added(t, n)[t.tip].KnownValid() && !OnBranch(n, t.tip)
  {
    hide BlockNode.Wf, Path;
    var status := Added(t, n);
    forall m | m in status ensures m.Wf() && (m.parent != null ==> m.parent in status) && NodeSound(status, m) {
      assert m in t.status ==> m.Wf() && NodeSound(t.status, m);
    }
    if OnBranch(n, t.tip) {
      PathInTree(t.status.Keys, t.tip, t.tip, n.height);
    }
  }

  /** Blocks on the best chain of a sound tree are known valid. */
  lemma {:induction false} BestChainValid(t: Tree, tip: BlockNode, n: BlockNode)
    requires Sound(t) && tip in t.status && t.status[tip].KnownValid() && OnBranch(n, tip)
    ensures n in t.status && t.status[n].KnownValid() && !t.status[n].KnownInvalid()
    decreases tip.height
  {
    PathShape(tip);
    if n.height < tip.height {
      PathShape(tip.parent);
      BestChainValid(t, tip.parent, n);
    }
  }

  // ----- One step -----

  lemma ReorgKeepsSound(t: Tree, t': Tree, n: BlockNode, r: AcceptResult)
    requires Sound(t) && Step(t, t', n, r) && n.parent != t.tip
    requires ReorgStep(WithNode(t, n), t', n, r)
    ensures Sound(t')
  {
    hide BlockNode.Wf, Path;
    AddedSound(t, n);
    var status, a := Added(t, n), AttachNodes(n, t.tip);
    AttachShape(status.Keys, t.tip, n);
    BestChainValid(t, t.tip, a[0].parent);
    MarkValidSound(status, a);
  }

  lemma FailedReorgKeepsSound(t: Tree, t': Tree, n: BlockNode, r: AcceptResult, k: nat)
    requires Sound(t) && Step(t, t', n, r) && n.parent != t.tip
    requires FailedReorgStep(WithNode(t, n), t', n, r, k)
    ensures Sound(t')
  {
    hide BlockNode.Wf, Path, AttachNodes, FailedAncestor, OnBranch, NoneInvalid, Fork, StatusSound, TreeOk;
    var a := PassedPrefix(t, n, k);
    if r == Rejected(ConnectRule) {
      MarkFailureSound(t, n, a, k);
    }
  }

  /** The k-th block of a side chain failed after the ones before it passed. */
  lemma MarkFailureSound(t: Tree, n: BlockNode, a: seq<BlockNode>, k: nat)
    requires Sound(t) && NewNode(t, n) && a == AttachNodes(n, t.tip) && k < |a|
    requires forall i :: 0 <= i < |a| ==> a[i] in Added(t, n)
    requires Closed(Added(t, n).Keys)
    requires var passed := Mark(Added(t, n), a[..k], STATUS_VALID);
             StatusSound(passed) && passed[t.tip].KnownValid() && forall i :: k <= i < |a| ==> !passed[a[i]].KnownValid()
    ensures var failed := Mark(Mark(Added(t, n), a[..k], STATUS_VALID), [a[k]], STATUS_VALIDATE_FAILED);
            var after := Mark(failed, a[k + 1..], STATUS_INVALID_ANCESTOR);
            StatusSound(after) && after[t.tip].KnownValid()
  {
    hide BlockNode.Wf, Path, AttachNodes, FailedAncestor, OnBranch, NoneInvalid, Fork;
    var passed := Mark(Added(t, n), a[..k], STATUS_VALID);
    MarkFailedSound(passed, a[k]);
    var failed := Mark(passed, [a[k]], STATUS_VALIDATE_FAILED);
    forall i | k < i < |a| ensures !failed[a[i]].KnownValid() && FailedAncestor(failed, a[i]) {
      FailedBelow(t, n, failed, k, i);
    }
    MarkDescendantsSound(failed, a[k + 1..]);
  }

  /** The state after the first k blocks of a side chain have passed. */
  lemma PassedPrefix(t: Tree, n: BlockNode, k: nat) returns (a: seq<BlockNode>)
    requires Sound(t) && NewNode(t, n)
    requires k < |AttachNodes(n, t.tip)| && NoneInvalid(Added(t, n), AttachNodes(n, t.tip))
    requires AttachNodes(n, t.tip)[k] in Added(t, n) && !Added(t, n)[AttachNodes(n, t.tip)[k]].KnownValid()
    ensures a == AttachNodes(n, t.tip)
    ensures TreeOk(Added(t, n).Keys, t.tip) && Closed(Added(t, n).Keys)
    ensures forall i :: 0 <= i < |a| ==> a[i] in Added(t, n)
    ensures var passed := Mark(Added(t, n), a[..k], STATUS_VALID);
            StatusSound(passed) && passed[t.tip].KnownValid() && forall i :: k <= i < |a| ==> !passed[a[i]].KnownValid()
  {
    hide BlockNode.Wf, Path, FailedAncestor;
    AddedSound(t, n);
    var status := Added(t, n);
    a := AttachNodes(n, t.tip);
    AttachShape(status.Keys, t.tip, n);
    BestChainValid(t, t.tip, a[0].parent);
    MarkValidSound(status, a[..k]);
    forall i | k <= i < |a| ensures !Mark(status, a[..k], STATUS_VALID)[a[i]].KnownValid() {
      ValidIsClosed(status, a, k, i);
      assert a[i] !in a[..k];
    }
  }

  lemma FailedBelow(t: Tree, n: BlockNode, status: map<BlockNode, Status>, k: nat, i: nat)
    requires Sound(t) && NewNode(t, n)
    requires k < i < |AttachNodes(n, t.tip)|
    requires var x := AttachNodes(n, t.tip)[k]; x in status && status[x].validateFailed
    ensures AttachNodes(n, t.tip)[i].Wf() && FailedAncestor(status, AttachNodes(n, t.tip)[i])
  {
    hide BlockNode.Wf, Path, AttachNodes;
    AncestorInList(t, n, k, i);
  }

  /** Earlier blocks of an attach list are proper ancestors of later ones. */
  lemma AncestorInList(t: Tree, n: BlockNode, k: nat, i: nat)
    requires Sound(t) && NewNode(t, n)
    requires k < i < |AttachNodes(n, t.tip)|
    ensures var a := AttachNodes(n, t.tip);
            a[i].Wf() && 0 <= a[k].height < |Path(a[i])| - 1 && Path(a[i])[a[k].height] == a[k]
  {
    hide BlockNode.Wf, Path;
    AddedSound(t, n);
    AttachShape(Added(t, n).Keys, t.tip, n);
    var a := AttachNodes(n, t.tip);
    PathPrefix(n, a[i].height);
    assert Path(a[i])[a[k].height] == Path(n)[..a[i].height + 1][a[k].height];
  }

  lemma InvalidBranchKeepsSound(t: Tree, t': Tree, n: BlockNode, r: AcceptResult, k: nat)
    requires Sound(t) && Step(t, t', n, r) && n.parent != t.tip
    requires InvalidBranchStep(WithNode(t, n), t', n, r, k)
    ensures Sound(t')
  {
    hide BlockNode.Wf, Path, AttachNodes, FailedAncestor, OnBranch, Fork, NoneInvalid;
    AddedSound(t, n);
    var status, a := Added(t, n), AttachNodes(n, t.tip);
    forall i | k < i < |a| ensures a[i] in status && !status[a[i]].KnownValid() && FailedAncestor(status, a[i]) {
      InvalidBelow(t, n, k, i);
    }
    MarkDescendantsSound(status, a[k + 1..]);
  }

  /** A block above a known invalid one on the side chain. */
  lemma InvalidBelow(t: Tree, n: BlockNode, k: nat, i: nat)
    requires Sound(t) && NewNode(t, n) && k < i < |AttachNodes(n, t.tip)|
    requires var x := AttachNodes(n, t.tip)[k]; x in Added(t, n) && Added(t, n)[x].KnownInvalid()
    ensures var m := AttachNodes(n, t.tip)[i];
            m in Added(t, n) && !Added(t, n)[m].KnownValid() && m.Wf() && FailedAncestor(Added(t, n), m)
  {
    hide BlockNode.Wf, Path, AttachNodes, Fork, OnBranch;
    AddedSound(t, n);
    var status, a := Added(t, n), AttachNodes(n, t.tip);
    AttachShape(status.Keys, t.tip, n);
    assert a[k].Wf() && NodeSound(status, a[k]);
    ValidIsClosed(status, a, k, i);
    AncestorInList(t, n, k, i);
    if !status[a[k]].validateFailed {
      FailedAncestorOfDescendant(status, a[k], a[i]);
    }
  }

  /** What failed below a block also failed below its descendants. */
  lemma FailedAncestorOfDescendant(status: map<BlockNode, Status>, m: BlockNode, n: BlockNode)
    requires n.Wf() && 0 <= m.height < |Path(n)| - 1 && Path(n)[m.height] == m
    requires m.Wf() && FailedAncestor(status, m)
    ensures FailedAncestor(status, n)
  {
    hide BlockNode.Wf, Path;
    PathPrefix(n, m.height);
    PathShape(n);
    var h :| 0 <= h < |Path(m)| - 1 && Path(m)[h] in status && status[Path(m)[h]].validateFailed;
    assert Path(m)[h] == Path(n)[..m.height + 1][h] == Path(n)[h];
  }

  /** Accepting a block keeps the statuses sound and the best chain valid. */
  lemma StepKeepsSound(t: Tree, t': Tree, n: BlockNode, r: AcceptResult)
    requires Sound(t) && Step(t, t', n, r)
    ensures Sound(t')
  {
    hide BlockNode.Wf, Path;
    AddedSound(t, n);
    if n.parent == t.tip {
      MarkValidSound(Added(t, n), [n]);
      MarkFailedSound(Added(t, n), n);
    } else if n.workSum > t.tip.workSum {
      if ReorgStep(WithNode(t, n), t', n, r) {
        ReorgKeepsSound(t, t', n, r);
      } else if k: nat :| FailedReorgStep(WithNode(t, n), t', n, r, k) {
        FailedReorgKeepsSound(t, t', n, r, k);
      } else {
        var k: nat :| InvalidBranchStep(WithNode(t, n), t', n, r, k);
        InvalidBranchKeepsSound(t, t', n, r, k);
      }
    }
  }

  /** The effect of marking on one block. */
  lemma MarkAt(status: map<BlockNode, Status>, nodes: seq<BlockNode>, flags: Status, m: BlockNode)
    requires m in status
    ensures Mark(status, nodes, flags)[m] == if m in nodes then status[m].With(flags) else status[m]
  {}

  /** Flags are only ever added. */
  lemma StatusesGrow(t: Tree, t': Tree, n: BlockNode, r: AcceptResult, m: BlockNode)
    requires Sound(t) && Step(t, t', n, r) && m in t.status
    ensures m in t'.status
    ensures t.status[m].KnownInvalid() ==> t'.status[m].KnownInvalid()
    ensures t.status[m].KnownValid() ==> t'.status[m].KnownValid()
  {
    hide BlockNode.Wf, Path, AttachNodes, TreeOk, StatusSound, NoneInvalid, Mark;
    var status, a := Added(t, n), AttachNodes(n, t.tip);
    if n.parent == t.tip {
      MarkAt(status, [n], STATUS_VALID, m);
      MarkAt(status, [n], STATUS_VALIDATE_FAILED, m);
    } else if n.workSum > t.tip.workSum {
      if ReorgStep(WithNode(t, n), t', n, r) {
        MarkAt(status, a, STATUS_VALID, m);
      } else if k: nat :| FailedReorgStep(WithNode(t, n), t', n, r, k) {
        var passed := Mark(status, a[..k], STATUS_VALID);
        MarkAt(status, a[..k], STATUS_VALID, m);
        MarkAt(passed, [a[k]], STATUS_VALIDATE_FAILED, m);
        MarkAt(Mark(passed, [a[k]], STATUS_VALIDATE_FAILED), a[k + 1..], STATUS_INVALID_ANCESTOR, m);
      } else {
        var k: nat :| InvalidBranchStep(WithNode(t, n), t', n, r, k);
        MarkAt(status, a[k + 1..], STATUS_INVALID_ANCESTOR, m);
      }
    }
  }

  // ----- Which blocks a step marks, flag by flag -----

  /** A status after marks were added. */
  ghost predicate Flagged(before: Status, after: Status, valid: bool, failed: bool, ancestor: bool) {
    && after.dataStored == before.dataStored
    && (after.valid <==> before.valid || valid)
    && (after.validateFailed <==> before.validateFailed || failed)
    && (after.invalidAncestor <==> before.invalidAncestor || ancestor)
  }

  /** The block m of the branch of n stops the check: the blocks below it are valid, it
      failed, and those above it have an invalid ancestor. */
  ghost predicate FailedAt(before: map<BlockNode, Status>, after: map<BlockNode, Status>, n: BlockNode, m: BlockNode)
    requires n.Wf()
  {
    && OnBranch(m, n) && before.Keys == after.Keys
    && forall x :: x in before ==>
         Flagged(before[x], after[x], OnBranch(x, n) && x.height < m.height, x == m, OnBranch(x, n) && x.height > m.height)
  }

  /** The block m of the branch of n meets an error: the blocks below it are valid. */
  ghost predicate StoppedAt(before: map<BlockNode, Status>, after: map<BlockNode, Status>, n: BlockNode, m: BlockNode)
    requires n.Wf()
  {
    && OnBranch(m, n) && before.Keys == after.Keys
    && forall x :: x in before ==> Flagged(before[x], after[x], OnBranch(x, n) && x.height < m.height, false, false)
  }

  /** The block m of the branch of n was known to be invalid, and is the highest such. */
  ghost predicate IgnoredAbove(before: map<BlockNode, Status>, after: map<BlockNode, Status>, n: BlockNode, m: BlockNode)
    requires n.Wf() && m in before
  {
    && OnBranch(m, n) && before.Keys == after.Keys && before[m].KnownInvalid()
    && forall x :: x in before ==>
         && Flagged(before[x], after[x], false, false, OnBranch(x, n) && x.height > m.height)
         && (OnBranch(x, n) && x.height > m.height ==> !before[x].KnownInvalid())
  }

  /** The whole branch of n is valid. */
  ghost predicate Connected(before: map<BlockNode, Status>, after: map<BlockNode, Status>, n: BlockNode)
    requires n.Wf()
  {
    && before.Keys == after.Keys
    && forall x :: x in before ==> Flagged(before[x], after[x], OnBranch(x, n), false, false)
  }

  /** What a step does to every status, by what it reports and the tip. */
  ghost predicate MarksOf(before: map<BlockNode, Status>, after: map<BlockNode, Status>, tip: BlockNode, n: BlockNode, r: AcceptResult)
    requires n.Wf()
  {
    if r == Accepted(false) then after == before && tip != n
    else if r.Accepted? && tip == n then Connected(before, after, n)
    else if r.Accepted? then exists m :: m in before && IgnoredAbove(before, after, n, m)
    else if r.error == ConnectRule then tip != n && exists m :: m in before && FailedAt(before, after, n, m)
    else r.error == Database && tip != n && exists m :: m in before && StoppedAt(before, after, n, m)
  }

  /** The blocks to attach from a place on, by their heights. */
  lemma AttachedFrom(nodes: set<BlockNode>, tip: BlockNode, n: BlockNode, k: nat, x: BlockNode)
    requires TreeOk(nodes, tip) && n in nodes && !OnBranch(n, tip) && n.Wf() && tip.Wf()
    requires k <= |AttachNodes(n, tip)|
    ensures Fork(n, tip) != null
    ensures x in AttachNodes(n, tip)[k..] <==> OnBranch(x, n) && x.height > Fork(n, tip).height + k
    ensures x in AttachNodes(n, tip)[..k] <==> OnBranch(x, n) && Fork(n, tip).height < x.height <= Fork(n, tip).height + k
  {
    hide BlockNode.Wf, Path, Fork, AttachNodes, TreeOk;
    AttachShape(nodes, tip, n);
    PathShape(n);
    var a, f := AttachNodes(n, tip), Fork(n, tip);
    if OnBranch(x, n) && x.height > f.height {
      assert a[x.height - f.height - 1] == x;
      if x.height > f.height + k {
        assert a[k..][x.height - f.height - 1 - k] == x;
      } else {
        assert a[..k][x.height - f.height - 1] == x;
      }
    }
  }

  /** Up to the fork, the branch of a new block is valid already. */
  lemma ValidToFork(t: Tree, n: BlockNode, x: BlockNode)
    requires Sound(t) && NewNode(t, n) && OnBranch(x, n) && Fork(n, t.tip) != null && x.height <= Fork(n, t.tip).height
    ensures x in t.status && t.status[x].KnownValid() && x != n
  {
    hide BlockNode.Wf, Path, Fork, TreeOk, StatusSound;
    BelowFork(t, n, x.height);
    TipValid(t);
    BestChainValid(t, t.tip, x);
  }

  /** Everything a step marks, and nothing else. */
  lemma ReorgMarks(t: Tree, t': Tree, n: BlockNode)
    requires Sound(t) && NewNode(t, n) && t.tip.Wf() && ReorgStep(WithNode(t, n), t', n, Accepted(true))
    ensures Connected(Added(t, n), t'.status, n)
  {
    hide BlockNode.Wf, Path, Fork, AttachNodes, TreeOk, StatusSound, OnBranch, NoneInvalid, Mark;
    AddedSound(t, n);
    TreeWf(Added(t, n).Keys, t.tip, n);
    var status, a := Added(t, n), AttachNodes(n, t.tip);
    assert a[0..] == a;
    forall x | x in status ensures Flagged(status[x], t'.status[x], OnBranch(x, n), false, false) {
      MarkAt(status, a, STATUS_VALID, x);
      AttachedFrom(status.Keys, t.tip, n, 0, x);
      if OnBranch(x, n) && x !in a {
        ValidToFork(t, n, x);
      }
    }
  }

  lemma FailedMarks(t: Tree, t': Tree, n: BlockNode, r: AcceptResult, k: nat)
    requires Sound(t) && NewNode(t, n) && t.tip.Wf() && FailedReorgStep(WithNode(t, n), t', n, r, k)
    ensures k < |AttachNodes(n, t.tip)| && AttachNodes(n, t.tip)[k] in Added(t, n)
    ensures var m := AttachNodes(n, t.tip)[k];
            if r.error == ConnectRule then FailedAt(Added(t, n), t'.status, n, m)
            else r.error == Database && StoppedAt(Added(t, n), t'.status, n, m)
  {
    hide BlockNode.Wf, Path, Fork, AttachNodes, TreeOk, StatusSound, OnBranch, NoneInvalid, Mark;
    AddedSound(t, n);
    TreeWf(Added(t, n).Keys, t.tip, n);
    var status, a, f := Added(t, n), AttachNodes(n, t.tip), Fork(n, t.tip);
    AttachShape(status.Keys, t.tip, n);
    assert a[k..][0] == a[k];
    AttachedFrom(status.Keys, t.tip, n, k, a[k]);
    var passed := Mark(status, a[..k], STATUS_VALID);
    var failed := Mark(passed, [a[k]], STATUS_VALIDATE_FAILED);
    forall x | x in status
      ensures Flagged(status[x], passed[x], OnBranch(x, n) && x.height < a[k].height, false, false)
      ensures r.error == ConnectRule ==>
                Flagged(status[x], t'.status[x], OnBranch(x, n) && x.height < a[k].height, x == a[k], OnBranch(x, n) && x.height > a[k].height)
    {
      MarkAt(status, a[..k], STATUS_VALID, x);
      MarkAt(passed, [a[k]], STATUS_VALIDATE_FAILED, x);
      MarkAt(failed, a[k + 1..], STATUS_INVALID_ANCESTOR, x);
      AttachedFrom(status.Keys, t.tip, n, k, x);
      AttachedFrom(status.Keys, t.tip, n, k + 1, x);
      if OnBranch(x, n) && x.height <= f.height {
        ValidToFork(t, n, x);
      }
    }
  }

  lemma IgnoredMarks(t: Tree, t': Tree, n: BlockNode, r: AcceptResult, k: nat)
    requires Sound(t) && NewNode(t, n) && t.tip.Wf() && InvalidBranchStep(WithNode(t, n), t', n, r, k)
    ensures k < |AttachNodes(n, t.tip)| && AttachNodes(n, t.tip)[k] in Added(t, n)
    ensures IgnoredAbove(Added(t, n), t'.status, n, AttachNodes(n, t.tip)[k])
  {
    hide BlockNode.Wf, Path, Fork, AttachNodes, TreeOk, StatusSound, OnBranch, Mark;
    AddedSound(t, n);
    TreeWf(Added(t, n).Keys, t.tip, n);
    var status, a := Added(t, n), AttachNodes(n, t.tip);
    AttachShape(status.Keys, t.tip, n);
    assert a[k..][0] == a[k];
    AttachedFrom(status.Keys, t.tip, n, k, a[k]);
    forall x | x in status
      ensures Flagged(status[x], t'.status[x], false, false, OnBranch(x, n) && x.height > a[k].height)
      ensures OnBranch(x, n) && x.height > a[k].height ==> !status[x].KnownInvalid()
    {
      MarkAt(status, a[k + 1..], STATUS_INVALID_ANCESTOR, x);
      AttachedFrom(status.Keys, t.tip, n, k + 1, x);
    }
  }

  lemma ExtendMarks(t: Tree, t': Tree, n: BlockNode, r: AcceptResult)
    requires Sound(t) && NewNode(t, n) && t.tip.Wf() && n.parent == t.tip && ExtendStep(WithNode(t, n), t', n, r)
    ensures MarksOf(Added(t, n), t'.status, t'.tip, n, r)
  {
    hide BlockNode.Wf, Path, Fork, AttachNodes, TreeOk, StatusSound, OnBranch, Mark;
    var status := Added(t, n);
    forall x | x in status ensures OnBranch(x, n) <==> x == n || OnBranch(x, t.tip) {
      ParentBranch(n, x);
    }
    forall x | x in status && x != n && OnBranch(x, n) ensures status[x].KnownValid() && x.height < n.height {
      ParentBranch(n, x);
      TipValid(t);
      BestChainValid(t, t.tip, x);
    }
    forall x | x in status
      ensures Mark(status, [n], STATUS_VALID)[x] == if x == n then status[x].With(STATUS_VALID) else status[x]
      ensures Mark(status, [n], STATUS_VALIDATE_FAILED)[x] == if x == n then status[x].With(STATUS_VALIDATE_FAILED) else status[x]
    {
      MarkAt(status, [n], STATUS_VALID, x);
      MarkAt(status, [n], STATUS_VALIDATE_FAILED, x);
    }
    ParentBranch(n, n);
    TipIndexed(t, n);
    if r == Rejected(ConnectRule) {
      assert FailedAt(status, t'.status, n, n);
    } else if r == Rejected(Database) {
      assert StoppedAt(status, t'.status, n, n);
    }
  }

  lemma TipIndexed(t: Tree, n: BlockNode)
    requires Sound(t) && NewNode(t, n)
    ensures t.tip in t.status && t.tip != n
  {}

  /** The branch of a block is that of its parent and the block. */
  lemma ParentBranch(n: BlockNode, x: BlockNode)
    requires n.Wf() && n.parent != null && n.parent.Wf()
    ensures OnBranch(x, n) <==> x == n || OnBranch(x, n.parent)
    ensures OnBranch(x, n.parent) ==> x.height < n.height
  {
    PathShape(n);
    PathShape(n.parent);
  }

  /** What accepting a block marks, for every block: the branch of a new tip is valid;
      where a check fails, what is below is valid and what is above has an invalid
      ancestor; what is above a known invalid block has one, too.  Nothing else changes. */
  lemma StepMarks(t: Tree, t': Tree, n: BlockNode, r: AcceptResult)
    requires Sound(t) && Step(t, t', n, r)
    ensures MarksOf(Added(t, n), t'.status, t'.tip, n, r)
  {
    hide BlockNode.Wf, Path, AttachNodes, TreeOk, StatusSound, Mark, FailedAt, StoppedAt, IgnoredAbove, Connected, OnBranch;
    TipIndexed(t, n);
    if n.parent == t.tip {
      ExtendMarks(t, t', n, r);
    } else if n.workSum > t.tip.workSum {
      if ReorgStep(WithNode(t, n), t', n, r) {
        ReorgMarks(t, t', n);
      } else if k: nat :| FailedReorgStep(WithNode(t, n), t', n, r, k) {
        FailedMarks(t, t', n, r, k);
      } else {
        var k: nat :| InvalidBranchStep(WithNode(t, n), t', n, r, k);
        IgnoredMarks(t, t', n, r, k);
      }
    }
  }

  /** The tip only changes to a block with strictly more work: work never decreases,
      and of two blocks with equal work the first one seen stays. */
  lemma StepTip(t: Tree, t': Tree, n: BlockNode, r: AcceptResult)
    requires Sound(t) && Step(t, t', n, r)
    ensures t'.tip == t.tip || (t'.tip == n && n.workSum > t.tip.workSum)
    ensures n.workSum <= t.tip.workSum ==> t'.tip == t.tip
  {}

  lemma InvalidStays(t: Tree, t': Tree, n: BlockNode, r: AcceptResult, m: BlockNode)
    requires Sound(t) && Step(t, t', n, r) && m in t.status && HasInvalid(t.status, m)
    ensures HasInvalid(t'.status, m)
  {
    hide BlockNode.Wf, Path, Step, StatusSound;
    var h :| 0 <= h < |Path(m)| && Path(m)[h] in t.status && t.status[Path(m)[h]].KnownInvalid();
    StatusesGrow(t, t', n, r, Path(m)[h]);
  }

  /** A branch that is clean up to the fork and from there on is clean. */
  lemma NoInvalidOnBranch(t: Tree, status: map<BlockNode, Status>, n: BlockNode)
    requires Sound(t) && NewNode(t, n) && status.Keys == Added(t, n).Keys
    requires forall m :: m in t.status && OnBranch(m, t.tip) ==> !status[m].KnownInvalid()
    requires NoneInvalid(status, AttachNodes(n, t.tip))
    ensures !HasInvalid(status, n)
  {
    hide BlockNode.Wf, Path, StatusSound, TreeOk, OnBranch, Fork;
    AddedSound(t, n);
    TreeWf(Added(t, n).Keys, t.tip, n);
    AttachSize(Added(t, n).Keys, t.tip, n);
    var f := Fork(n, t.tip);
    forall h | 0 <= h < |Path(n)| && Path(n)[h] in status ensures !status[Path(n)[h]].KnownInvalid() {
      if h <= f.height {
        BelowFork(t, n, h);
      } else {
        assert Path(n)[h] == AttachNodes(n, t.tip)[h - f.height - 1];
      }
    }
  }

  /** Up to the fork a branch is part of the best chain. */
  lemma BelowFork(t: Tree, n: BlockNode, h: int)
    requires Sound(t) && n.Wf() && Fork(n, t.tip) != null && 0 <= h < |Path(n)| && h <= Fork(n, t.tip).height
    ensures Path(n)[h] in t.status && OnBranch(Path(n)[h], t.tip)
  {
    hide BlockNode.Wf, Path, StatusSound, Fork;
    ForkIsHighestCommon(n, t.tip);
    PathShape(t.tip);
    assert Branch(n)[h] == Branch(t.tip)[h];
    PathInTree(t.status.Keys, t.tip, t.tip, h);
  }

  lemma StepNodes(t: Tree, t': Tree, n: BlockNode, r: AcceptResult)
    requires Sound(t) && Step(t, t', n, r)
    ensures t'.status.Keys == t.status.Keys + {n}
  {
    hide BlockNode.Wf, Path, TreeOk, StatusSound, AttachNodes, NoneInvalid;
  }

  /** Only branches with a known invalid block stay heavier than the best chain,
      unless the step ended in an error that is not a rule violation: and then the
      new block itself is one that is heavier. */
  lemma StepKeepsHeaviest(t: Tree, t': Tree, n: BlockNode, r: AcceptResult)
    requires Sound(t) && Heaviest(t) && Step(t, t', n, r)
    ensures Sound(t')
    ensures Heaviest(t') <==> r != Rejected(Database)
  {
    hide BlockNode.Wf, Path, StatusSound, Step, HasInvalid, Heaviest;
    StepKeepsSound(t, t', n, r);
    StepNodes(t, t', n, r);
    WorkIsKept(t);
    WorkIsKept(t');
    if r == Rejected(Database) {
      DatabaseErrorStep(t, t', n, r);
    } else {
      StepTip(t, t', n, r);
      forall m | m in t'.status && m.workSum > t'.tip.workSum ensures HasInvalid(t'.status, m) {
        if m == n {
          HeavyNewBlock(t, t', n, r);
        } else {
          assert m in t.status && m.workSum > t.tip.workSum;
          InvalidStays(t, t', n, r, m);
        }
      }
    }
  }

  /** A heavier block that did not become the tip was marked invalid. */
  lemma HeavyNewBlock(t: Tree, t': Tree, n: BlockNode, r: AcceptResult)
    requires Sound(t) && Step(t, t', n, r)
    requires t'.tip == t.tip && n.workSum > t.tip.workSum && r != Rejected(Database)
    ensures HasInvalid(t'.status, n)
  {
    hide BlockNode.Wf, Path, StatusSound, TreeOk, NoneInvalid, AttachNodes;
    assert t'.status[n].KnownInvalid() by {
      AddedSound(t, n);
      AttachShape(Added(t, n).Keys, t.tip, n);
    }
    PathShape(n);
    assert Path(n)[n.height] == n;
  }

  lemma TipValid(t: Tree)
    requires Sound(t)
    ensures t.tip in t.status && t.status[t.tip].KnownValid()
  {}

  lemma DatabaseErrorStep(t: Tree, t': Tree, n: BlockNode, r: AcceptResult)
    requires Sound(t) && Sound(t') && Step(t, t', n, r) && r == Rejected(Database)
    ensures n in t'.status && n.workSum > t'.tip.workSum && !HasInvalid(t'.status, n)
  {
    hide BlockNode.Wf, Path, AttachNodes, TreeOk, StatusSound, HasInvalid;
    TipValid(t');
    var status, a := Added(t, n), AttachNodes(n, t.tip);
    assert n.workSum > t.tip.workSum by {
      assert n.Wf() && n.parent == t.tip ==> n.workSum > t.tip.workSum by { MoreWork(n); }
    }
    if n.parent == t.tip {
      NewBlockAlone(t, n);
    } else {
      var k: nat :| FailedReorgStep(WithNode(t, n), t', n, r, k);
      assert forall i :: 0 <= i < |a| && a[i] in status ==> !t'.status[a[i]].KnownInvalid();
    }
    forall m | m in t.status && OnBranch(m, t.tip) ensures !t'.status[m].KnownInvalid() {
      StatusesGrow(t, t', n, r, m);
      BestChainValid(t', t'.tip, m);
    }
    NoInvalidOnBranch(t, t'.status, n);
  }

  lemma MoreWork(n: BlockNode)
    requires n.Wf() && n.parent != null
    ensures n.workSum > n.parent.workSum
  {}

  /** A block on top of the best chain attaches alone. */
  lemma NewBlockAlone(t: Tree, n: BlockNode)
    requires Sound(t) && NewNode(t, n) && n.parent == t.tip
    ensures AttachNodes(n, t.tip) == [n]
  {
    AddedSound(t, n);
    PathShape(t.tip);
    assert Fork(n, t.tip) == t.tip;
  }

  /** "true" is reported for a block off the best chain exactly when the branch that
      was to be attached held a block already known to be invalid. */
  lemma ReportedOnMainChain(t: Tree, t': Tree, n: BlockNode)
    requires Sound(t) && Step(t, t', n, Accepted(true))
    ensures t'.tip == n <==> NoneInvalid(t.status, AttachNodes(n, t.tip))
  {
    hide BlockNode.Wf, Path;
    var status, a := Added(t, n), AttachNodes(n, t.tip);
    assert NoneInvalid(status, a) <==> NoneInvalid(t.status, a) by {
      forall i | 0 <= i < |a| && a[i] in status && a[i] !in t.status ensures !status[a[i]].KnownInvalid() {}
    }
    if n.parent == t.tip {
      NewBlockAlone(t, n);
    }
  }

  /** So a call reports "true" for a block off the best chain exactly if the block is not
      on top of it, has more work, and its branch held a block already known to be
      invalid. */
  lemma MisleadingTrue(t: Tree, t': Tree, n: BlockNode, r: AcceptResult)
    requires Sound(t) && Step(t, t', n, r)
    ensures r == Accepted(true) && t'.tip != n <==>
            n.parent != t.tip && n.workSum > t.tip.workSum && !NoneInvalid(t.status, AttachNodes(n, t.tip))
  {
    hide BlockNode.Wf, Path, AttachNodes, TreeOk, StatusSound;
    if r == Accepted(true) {
      ReportedOnMainChain(t, t', n);
      StepTip(t, t', n, r);
    }
    NoneInvalidGrows(t, n);
    if n.parent == t.tip {
      NewBlockAlone(t, n);
    }
  }

  /** The new node itself is not known to be invalid. */
  lemma NoneInvalidGrows(t: Tree, n: BlockNode)
    requires n.Wf() && t.tip.Wf() && n !in t.status
    ensures NoneInvalid(Added(t, n), AttachNodes(n, t.tip)) <==> NoneInvalid(t.status, AttachNodes(n, t.tip))
  {
    hide AttachNodes;
    var status, a := Added(t, n), AttachNodes(n, t.tip);
    forall i | 0 <= i < |a| && a[i] in status && a[i] !in t.status ensures !status[a[i]].KnownInvalid() {}
  }

  // ----- Every run -----

  /** One call: the block it was for and what it reported. */
  datatype Event = Event(n: BlockNode, result: AcceptResult)

  /** A call either rejects the block before it is indexed, or is a step. */
  ghost predicate Transition(t: Tree, t': Tree, e: Event) {
    || (t' == t && e.result.Rejected? && e.result.error in {PreviousBlockUnknown, InvalidAncestorBlock, ContextRule})
    || Step(t, t', e.n, e.result)
  }

  /** The tree of a new chain: a valid genesis block. */
  ghost predicate Initial(t: Tree) {
    t.tip.Wf() && t.tip.parent == null && t.status == map[t.tip := STATUS_DATA_STORED.With(STATUS_VALID)]
  }

  ghost predicate Run(ts: seq<Tree>, es: seq<Event>) {
    && |ts| == |es| + 1 && Initial(ts[0])
    && forall i :: 0 <= i < |es| ==> Transition(ts[i], ts[i + 1], es[i])
  }

  /** In every state of every run the statuses are sound, and the best chain has the
      most work among the branches without a known invalid block, as long as no call
      ended in an error that is not a rule violation. */
  lemma {:induction false} RunIsSound(ts: seq<Tree>, es: seq<Event>, i: nat)
    requires Run(ts, es) && i < |ts|
    ensures Sound(ts[i])
    ensures (forall k :: 0 <= k < i ==> es[k].result != Rejected(Database)) ==> Heaviest(ts[i])
  {
    hide BlockNode.Wf, Path, Sound, Heaviest, Step, Initial;
    if i > 0 {
      RunIsSound(ts, es, i - 1);
      assert Transition(ts[i - 1], ts[i], es[i - 1]);
      if ts[i] != ts[i - 1] {
        StepKeepsSound(ts[i - 1], ts[i], es[i - 1].n, es[i - 1].result);
        if Heaviest(ts[i - 1]) {
          StepKeepsHeaviest(ts[i - 1], ts[i], es[i - 1].n, es[i - 1].result);
        }
      }
    } else {
      InitialIsSound(ts[0]);
    }
  }

  lemma TipWork(t: Tree)
    requires Sound(t)
    ensures t.tip.Wf() && t.tip.workSum == SumWork(Path(t.tip))
  {
    WorkOfBranch(t.tip);
  }

  lemma InitialIsSound(t: Tree)
    requires Initial(t)
    ensures Sound(t) && Heaviest(t)
  {}

  lemma ValidIsNotInvalid(t: Tree, n: BlockNode)
    requires Sound(t)
    ensures n in t.status && t.status[n].KnownValid() ==> !t.status[n].KnownInvalid()
  {
    assert n in t.status ==> n.Wf() && NodeSound(t.status, n);
  }

  /** Between any two states of a run the work of the best chain does not decrease,
      it stays the same only with the same tip, and a block known to be valid, such as
      any block that was ever on the best chain, is never known to be invalid. */
  lemma {:induction false} RunIsMonotone(ts: seq<Tree>, es: seq<Event>, i: nat, j: nat, m: BlockNode)
    requires Run(ts, es) && i <= j < |ts|
    ensures ts[i].tip.workSum <= ts[j].tip.workSum
    ensures ts[i].tip.workSum == ts[j].tip.workSum ==> ts[i].tip == ts[j].tip
    ensures ts[i].tip.Wf() && ts[j].tip.Wf() && SumWork(Path(ts[i].tip)) <= SumWork(Path(ts[j].tip))
    ensures SumWork(Path(ts[i].tip)) == SumWork(Path(ts[j].tip)) ==> ts[i].tip == ts[j].tip
    ensures m in ts[i].status && ts[i].status[m].KnownValid() ==>
              m in ts[j].status && ts[j].status[m].KnownValid() && !ts[j].status[m].KnownInvalid()
    decreases j - i
  {
    hide BlockNode.Wf, Path, TreeOk, Step, Initial, Heaviest, SumWork;
    RunIsSound(ts, es, i);
    RunIsSound(ts, es, j);
    TipWork(ts[i]);
    TipWork(ts[j]);
    ValidIsNotInvalid(ts[j], m);
    if i < j {
      RunIsMonotone(ts, es, i, j - 1, m);
      RunIsSound(ts, es, j - 1);
      assert Transition(ts[j - 1], ts[j], es[j - 1]);
      if ts[j] != ts[j - 1] {
        var e := es[j - 1];
        StepTip(ts[j - 1], ts[j], e.n, e.result);
        if m in ts[j - 1].status {
          StatusesGrow(ts[j - 1], ts[j], e.n, e.result, m);
        }
      }
    }
  }

  /** A block that was ever on the best chain is never known to be invalid afterwards. */
  lemma BestChainNeverInvalid(ts: seq<Tree>, es: seq<Event>, i: nat, j: nat, m: BlockNode)
    requires Run(ts, es) && i <= j < |ts|
    requires ts[i].tip.Wf() && OnBranch(m, ts[i].tip)
    ensures m in ts[j].status && ts[j].status[m].KnownValid() && !ts[j].status[m].KnownInvalid()
  {
    RunIsSound(ts, es, i);
    BestChainValid(ts[i], ts[i].tip, m);
    RunIsMonotone(ts, es, i, j, m);
  }
}

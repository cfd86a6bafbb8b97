// Block nodes, their parent and skip pointers (blockindex.go).
//
// The fields that the program treats as immutable are constants here, so what a
// node's branch is does not depend on the heap; only its status is mutable.

module BlockTree {
  import opened Bits

  /** A block hash, of which only the equality matters. */
  datatype Hash = Hash(value: int)

  /** What the chain engine reads from a block: its header and transaction count.
      The work is that of the header's difficulty bits (CalcWork). */
  datatype Block = Block(hash: Hash, prev: Hash, work: nat, timestamp: int, txCount: nat)

  /** The status bit field of a block node. */
  datatype Status = Status(dataStored: bool, valid: bool, validateFailed: bool, invalidAncestor: bool) {
    predicate KnownValid() { valid }

    predicate KnownInvalid() { validateFailed || invalidAncestor }

    /** Bitwise "or" with other flags. */
    function With(flags: Status): Status {
      Status(dataStored || flags.dataStored, valid || flags.valid,
             validateFailed || flags.validateFailed, invalidAncestor || flags.invalidAncestor)
    }
  }

  const STATUS_NONE := Status(false, false, false, false)
  const STATUS_DATA_STORED := Status(true, false, false, false)
  const STATUS_VALID := Status(false, true, false, false)
  const STATUS_VALIDATE_FAILED := Status(false, false, true, false)
  const STATUS_INVALID_ANCESTOR := Status(false, false, false, true)

  /** The height a node's skip pointer leads to: two 1 bits are popped off. */
  function GetAncestorHeight(height: nat): (h: nat)
    ensures height > 0 ==> h < height
  {
    SkipShrinks(height);
    InvertLowestOne(InvertLowestOne(height))
  }

  lemma SkipShrinks(n: nat)
    ensures 0 <= InvertLowestOne(n) <= n
    ensures n > 0 ==> InvertLowestOne(n) < n
    ensures 0 <= InvertLowestOne(InvertLowestOne(n)) <= InvertLowestOne(n)
  {
    if n > 0 {
      var q, i := LowestBit(n);
      InvertLowestOneClears(q, i);
      var m := InvertLowestOne(n);
      if m > 0 {
        var q', i' := LowestBit(m);
        InvertLowestOneClears(q', i');
      }
    }
  }

  class BlockNode {
    const parent: BlockNode?
    const ancestor: BlockNode?
    const block: Block
    const workSum: nat
    const height: int
    var status: Status

    /** The node was built by the constructor below, and so were its ancestors. */
    ghost predicate Wf()
      decreases height, 0
    {
      && block.work > 0
      && if parent == null then
           height == 0 && ancestor == null && workSum == block.work
         else
           && height == parent.height + 1 && height > 0
           && parent.Wf()
           && block.prev == parent.block.hash
           && workSum == parent.workSum + block.work
           && ancestor == AncestorAt(parent, GetAncestorHeight(height))
    }

    /** initBlockNode: derives height, work and skip pointer from the parent. */
    constructor (block: Block, parent: BlockNode?)
      requires block.work > 0
      requires parent != null ==> parent.Wf() && block.prev == parent.block.hash
      ensures Wf()
      ensures this.block == block && this.parent == parent && status == STATUS_NONE
    {
      this.block := block;
      this.parent := parent;
      status := STATUS_NONE;
      if parent == null {
        height := 0;
        workSum := block.work;
        ancestor := null;
      } else {
        height := parent.height + 1;
        workSum := parent.workSum + block.work;
        PathShape(parent);
        var skip, steps := parent.Ancestor(GetAncestorHeight(parent.height + 1));
        ancestor := skip;
      }
    }

    /** The ancestor of this node at a height, found by following skip pointers
        where they do not overshoot and parents otherwise. */
    method Ancestor(height: int) returns (r: BlockNode?, ghost steps: nat)
      requires Wf()
      ensures r == AncestorAt(this, height)
      ensures 0 <= height <= this.height ==> steps == LookupSteps(this.height, height)
    {
      hide GetAncestorHeight, Path;
      PathShape(this);
      steps := 0;
      if height < 0 || height > this.height {
        return null, steps;
      }
      var n: BlockNode? := this;
      while n != null && n.height != height
        invariant n != null && n.Wf() && height <= n.height <= this.height
        invariant n == Path(this)[n.height]
        invariant steps + LookupSteps(n.height, height) == LookupSteps(this.height, height)
        decreases n.height
      {
        Links(this, n.height);
        steps := steps + 1;
        if n.ancestor != null {
          if GetAncestorHeight(n.height) >= height {
            n := n.ancestor;
            continue;
          }
        }
        n := n.parent;
      }
      r := n;
    }
  }

  /** The branch that ends in a node: the nodes found by following parents,
      genesis first. */
  ghost function Path(n: BlockNode): (p: seq<BlockNode>)
    requires n.Wf()
    ensures |p| > 0 && p[|p| - 1] == n
    decreases n.height, 1
  {
    if n.parent == null then [n] else Path(n.parent) + [n]
  }

  /** What following parents down to a height finds. */
  ghost function AncestorAt(n: BlockNode, height: int): BlockNode?
    requires n.Wf()
    decreases n.height, 2
  {
    if 0 <= height < |Path(n)| then Path(n)[height] else null
  }

  /** The number of iterations of the loop in Ancestor; it depends on heights only. */
  ghost function LookupSteps(from: nat, to: nat): nat
    requires to <= from
  {
    if from == to then 0
    else if GetAncestorHeight(from) >= to then 1 + LookupSteps(GetAncestorHeight(from), to)
    else 1 + LookupSteps(from - 1, to)
  }

  /** A branch holds one well-formed node per height. */
  lemma {:induction false} PathShape(n: BlockNode)
    requires n.Wf()
    ensures |Path(n)| == n.height + 1
    ensures forall i :: 0 <= i < |Path(n)| ==> Path(n)[i].height == i && Path(n)[i].Wf()
    decreases n.height
  {
    if n.parent != null {
      PathShape(n.parent);
    }
  }

  /** The branch of an ancestor is the start of the node's own branch. */
  lemma {:induction false} PathPrefix(n: BlockNode, h: int)
    requires n.Wf() && 0 <= h < |Path(n)|
    ensures Path(n)[h].Wf() && Path(Path(n)[h]) == Path(n)[..h + 1]
    decreases n.height
  {
    PathShape(n);
    if h < n.height {
      PathShape(n.parent);
      PathPrefix(n.parent, h);
      assert Path(n)[..h + 1] == Path(n.parent)[..h + 1];
    } else {
      assert Path(n)[..h + 1] == Path(n);
    }
  }

  /** Both pointers of a node lead down its branch: the parent by one, the skip
      pointer to the height computed by GetAncestorHeight. */
  lemma Links(n: BlockNode, h: int)
    requires n.Wf() && 0 < h < |Path(n)|
    ensures GetAncestorHeight(h) < h
    ensures Path(n)[h].parent == Path(n)[h - 1]
    ensures Path(n)[h].ancestor == Path(n)[GetAncestorHeight(h)]
    ensures Path(n)[h - 1].Wf() && Path(n)[h - 1].height == h - 1
    ensures Path(n)[GetAncestorHeight(h)].Wf() && Path(n)[GetAncestorHeight(h)].height == GetAncestorHeight(h)
  {
    hide GetAncestorHeight;
    PathShape(n);
    PathPrefix(n, h);
    var m := Path(n)[h];
    assert Path(m) == Path(m.parent) + [m];
    assert Path(m.parent) == Path(n)[..h];
  }

  lemma ParentWf(n: BlockNode)
    requires n.Wf()
    ensures n.height >= 0
    ensures n.parent != null ==> n.parent.Wf() && n.parent.height == n.height - 1
    ensures n.parent == null ==> n.height == 0
  {}

  /** The work of a list of blocks. */
  function SumWork(nodes: seq<BlockNode>): nat {
    if nodes == [] then 0 else SumWork(nodes[..|nodes| - 1]) + nodes[|nodes| - 1].block.work
  }

  /** The work of a node is that of all blocks of its branch. */
  lemma {:induction false} WorkOfBranch(n: BlockNode)
    requires n.Wf()
    ensures n.workSum == SumWork(Path(n))
    decreases n.height
  {
    assert Path(n)[|Path(n)| - 1] == n;
    if n.parent != null {
      WorkOfBranch(n.parent);
      assert Path(n)[..|Path(n)| - 1] == Path(n.parent);
    }
  }
}

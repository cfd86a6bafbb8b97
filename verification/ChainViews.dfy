// The flat view of one branch of the block tree (chainview.go).

module ChainViews {
  import opened Bits
  import opened BlockTree

  // ----- fastLog2Floor -----

  const LOG2_FLOOR_MASKS: seq<nat> := [0xffff0000, 0xff00, 0xf0, 0xc, 0x2]

  /** floor(log2(n)), by repeated halving. */
  function Log2Floor(n: nat): nat
    requires n > 0
  {
    if n == 1 then 0 else 1 + Log2Floor(n / 2)
  }

  lemma {:induction false} Log2FloorBounds(n: nat)
    requires n > 0
    ensures Pow2(Log2Floor(n)) <= n < Pow2(Log2Floor(n) + 1)
  {
    if n > 1 {
      Log2FloorBounds(n / 2);
    }
  }

  lemma Log2FloorUnique(n: nat, r: nat)
    requires Pow2(r) <= n < Pow2(r + 1)
    ensures n > 0 && r == Log2Floor(n)
  {
    Log2FloorBounds(n);
    if r < Log2Floor(n) {
      Pow2Monotone(r + 1, Log2Floor(n));
    } else if r > Log2Floor(n) {
      Pow2Monotone(Log2Floor(n) + 1, r);
    }
  }

  /** The i-th mask has as many ones as the i-th exponent, shifted up by it. */
  lemma Masks(i: nat)
    requires i < 5
    ensures LOG2_FLOOR_MASKS[i] == Shl(Pow2([16, 8, 4, 2, 1][i]) - 1, [16, 8, 4, 2, 1][i])
  {
    assert Shl(1, 8) == 256 && Shl(256, 8) == 65536;
    ShlShl(1, 8, 8);
    assert Shl(65535, 8) == 65535 * 256 && Shl(65535 * 256, 8) == 65535 * 65536;
    ShlShl(65535, 8, 8);
    if i == 1 { assert Shl(255, 8) == 255 * 256; }
    if i == 2 { assert Shl(15, 4) == 15 * 16 && Shl(1, 4) == 16; }
    if i == 3 { assert Shl(3, 2) == 12 && Shl(1, 2) == 4; }
    if i == 4 { assert Shl(1, 1) == 2; }
  }

  /** A number of at most 2e bits meets the mask of the upper e bits exactly when it
      has more than e bits; shifting it then leaves at most e bits. */
  lemma MaskTest(n: nat, e: nat)
    requires n < Pow2(2 * e)
    ensures BitAnd(n, Shl(Pow2(e) - 1, e)) != 0 <==> n >= Pow2(e)
    ensures Shr(n, e) < Pow2(e)
  {
    hide BitAnd, Shr;
    BitAndShl(n, Pow2(e) - 1, e);
    ShrBounds(n, e, e);
    BitAndOnes(Shr(n, e), e);
    ShrBounds(n, e, 0);
  }

  method FastLog2Floor(n: nat) returns (rv: nat)
    requires n < 0x1_0000_0000
    ensures n > 0 ==> rv == Log2Floor(n)
    ensures n == 0 ==> rv == 0
    ensures rv < 32
  {
    rv := 0;
    var m, exponent := n, 16;
    Pow2OfIntWidth();
    for i := 0 to 5
      invariant exponent == if i < 5 then [16, 8, 4, 2, 1][i] else 0
      invariant m == Shr(n, rv)
      invariant m < Pow2(if i < 5 then 2 * exponent else 1)
      invariant n > 0 ==> m > 0
      invariant n == 0 ==> rv == 0
    {
      Masks(i);
      MaskTest(m, exponent);
      if BitAnd(m, LOG2_FLOOR_MASKS[i]) != 0 {
        ShrShr(n, rv, exponent);
        ShrBounds(m, exponent, 0);
        rv := rv + exponent;
        m := Shr(m, exponent);
      }
      exponent := exponent / 2;
    }
    if n > 0 {
      ShrBounds(n, rv, 0);
      ShrBounds(n, rv, 1);
      Log2FloorUnique(n, rv);
      if rv >= 32 { Pow2Monotone(32, rv); }
    }
  }

  /** The nodes of the branch that ends in a node, none for the nil node. */
  ghost function Branch(tip: BlockNode?): seq<BlockNode>
    requires tip != null ==> tip.Wf()
  {
    if tip == null then [] else Path(tip)
  }

  /** A node lies on the branch that ends in another one. */
  ghost predicate OnBranch(n: BlockNode, tip: BlockNode?)
    requires tip != null ==> tip.Wf()
  {
    0 <= n.height < |Branch(tip)| && Branch(tip)[n.height] == n
  }

  lemma OnBranchIsPrefix(n: BlockNode, tip: BlockNode)
    requires tip.Wf() && OnBranch(n, tip)
    ensures n.Wf() && Path(n) == Path(tip)[..n.height + 1]
  {
    PathPrefix(tip, n.height);
  }

  /** The slack that setTip allocates beyond the needed length. */
  const APPROX_NODES_PER_WEEK := 6 * 24 * 7

  class ChainView {
    /** The slice of nodes: the first len slots of its backing array. */
    var backing: array<BlockNode?>
    var len: nat

    /** The slice holds exactly the branch that ends in its last node. */
    ghost predicate Valid()
      reads this, backing
    {
      && len <= backing.Length
      && (len > 0 ==>
            && backing[len - 1] != null && backing[len - 1].Wf()
            && |Path(backing[len - 1])| == len
            && forall i :: 0 <= i < len ==> backing[i] == Path(backing[len - 1])[i])
    }

    function Tip(): (tip: BlockNode?)
      requires Valid()
      reads this, backing
      ensures tip != null ==> tip.Wf()
    {
      if len == 0 then null else backing[len - 1]
    }

    function Genesis(): (n: BlockNode?)
      requires Valid()
      reads this, backing
      ensures n == if Tip() == null then null else Path(Tip())[0]
    {
      if len == 0 then null else backing[0]
    }

    function Height(): int
      reads this
    {
      len - 1
    }

    function NodeByHeight(height: int): (n: BlockNode?)
      requires Valid()
      reads this, backing
      ensures n == if 0 <= height < |Branch(Tip())| then Branch(Tip())[height] else null
    {
      if height < 0 || height >= len then null else backing[height]
    }

    predicate Contains(node: BlockNode)
      requires Valid()
      reads this, backing
      ensures Contains(node) <==> OnBranch(node, Tip())
    {
      NodeByHeight(node.height) == node
    }

    /** The successor on the branch; nil past its end and for nodes off it. */
    function Next(node: BlockNode?): (n: BlockNode?)
      requires Valid()
      reads this, backing
      ensures n != null <==> node != null && OnBranch(node, Tip()) && node != Tip()
      ensures n != null ==> OnBranch(n, Tip()) && n.parent == node
    {
      if node == null || !Contains(node) then null
      else
        NextLinks(node);
        NodeByHeight(node.height + 1)
    }

    lemma NextLinks(node: BlockNode)
      requires Valid() && OnBranch(node, Tip())
      ensures node.height + 1 == len <==> node == Tip()
      ensures node.height + 1 < len ==>
                && Branch(Tip())[node.height + 1].parent == node
                && Branch(Tip())[node.height + 1].height == node.height + 1
    {
      PathShape(Tip());
      if node.height + 1 < len {
        Links(Tip(), node.height + 1);
      }
    }

    constructor (tip: BlockNode?)
      requires tip != null ==> tip.Wf()
      ensures Valid() && Tip() == tip && fresh(backing)
    {
      backing := new BlockNode?[0];
      len := 0;
      new;
      SetTip(tip);
    }

    /** Makes the view that of another tip, rewriting only the slots that change. */
    method SetTip(node: BlockNode?)
      requires Valid()
      requires node != null ==> node.Wf()
      modifies this, backing
      ensures Valid() && Tip() == node
      ensures backing == old(backing) || fresh(backing)
    {
      hide BlockNode.Wf, Path;
      if node == null {
        len := 0;
        return;
      }
      ghost var prev := Branch(Tip());
      PathShape(node);
      Resize(node.height + 1);
      var n: BlockNode? := node;
      while n != null && backing[n.height] != n
        invariant len == node.height + 1 <= backing.Length
        invariant backing == old(backing) || fresh(backing)
        invariant n != null ==> n.Wf() && OnBranch(n, node)
        invariant forall i :: Rest(n) <= i < len ==> backing[i] == Path(node)[i]
        invariant forall i :: 0 <= i < Rest(n) ==> backing[i] == if i < |prev| then prev[i] else null
        decreases Rest(n)
      {
        Below(n, node);
        backing[n.height] := n;
        n := n.parent;
      }
      if n != null {
        SharedPrefix(n, node, old(Tip()));
      }
    }

    /** Makes the slice hold a number of slots: what it held, then nil. */
    method Resize(needed: nat)
      requires len <= backing.Length
      modifies this, backing
      ensures len == needed <= backing.Length
      ensures backing == old(backing) || fresh(backing)
      ensures forall i :: 0 <= i < needed ==> backing[i] == if i < old(len) then old(backing[i]) else null
    {
      if backing.Length < needed {
        var nodes := new BlockNode?[needed + APPROX_NODES_PER_WEEK](_ => null);
        forall i | 0 <= i < len {
          nodes[i] := backing[i];
        }
        backing, len := nodes, needed;
      } else {
        forall i | len <= i < needed {
          backing[i] := null;
        }
        len := needed;
      }
    }

    lemma Below(n: BlockNode, tip: BlockNode)
      requires tip.Wf() && OnBranch(n, tip)
      ensures n.parent == null ==> n.height == 0
      ensures n.parent != null ==> n.parent.height == n.height - 1 && n.parent.Wf() && OnBranch(n.parent, tip)
    {
      PathShape(tip);
      if n.height > 0 {
        Links(tip, n.height);
      }
    }

    /** Two branches agree from genesis up to any node they share. */
    lemma SharedPrefix(n: BlockNode, a: BlockNode, b: BlockNode)
      requires a.Wf() && b.Wf() && OnBranch(n, a) && OnBranch(n, b)
      ensures forall i :: 0 <= i <= n.height ==> Path(a)[i] == Path(b)[i]
    {
      OnBranchIsPrefix(n, a);
      OnBranchIsPrefix(n, b);
      forall i | 0 <= i <= n.height ensures Path(a)[i] == Path(b)[i] {
        assert Path(a)[i] == Path(a)[..n.height + 1][i];
        assert Path(b)[i] == Path(b)[..n.height + 1][i];
      }
    }

    /** The number of slots that the loop of SetTip has not reached yet. */
    ghost function Rest(n: BlockNode?): int {
      if n == null then 0 else n.height + 1
    }

    /** The last common node of the branch of a node and the view. */
    method FindFork(node: BlockNode?) returns (fork: BlockNode?)
      requires Valid()
      requires node != null ==> node.Wf()
      ensures fork == Fork(node, Tip())
    {
      hide BlockNode.Wf, Path;
      if node == null {
        return null;
      }
      var n: BlockNode? := node;
      var chainHeight := Height();
      if n.height > chainHeight {
        ghost var steps;
        n, steps := n.Ancestor(chainHeight);
        ForkFromAncestor(node, chainHeight, Tip());
      }
      while n != null && !Contains(n)
        invariant n != null ==> n.Wf()
        invariant Fork(n, Tip()) == Fork(node, Tip())
        decreases Rest(n)
      {
        ParentWf(n);
        n := n.parent;
      }
      fork := n;
    }

    /** The ancestor of a node at a height: by a lookup in the view when the node is
        part of it, by walking back otherwise. */
    method FastAncestor(node: BlockNode, height: int) returns (ancestor: BlockNode)
      requires Valid() && node.Wf() && 0 <= height < |Path(node)|
      ensures ancestor == Path(node)[height]
    {
      hide BlockNode.Wf, Path;
      if Contains(node) {
        PathShape(node);
        SharedPrefix(node, node, Tip());
        ancestor := backing[height];
      } else {
        ghost var steps;
        ancestor, steps := node.Ancestor(height);
      }
    }

    /** The block locator of a node, or of the tip of the view for the nil node, and
        the capacity that was set aside for it. */
    method BlockLocator(node: BlockNode?) returns (locator: seq<Hash>, maxEntries: nat)
      requires Valid() && len <= 0x8000_0000
      requires node != null ==> node.Wf() && node.height < 0x8000_0000
      ensures node == null && Tip() == null ==> locator == []
      ensures node != null ==> IsLocator(locator, node)
      ensures node == null && Tip() != null ==> IsLocator(locator, Tip())
      ensures |locator| == maxEntries < 256
    {
      hide BlockNode.Wf, Path, IsLocator;
      var n := if node == null then Tip() else node;
      if n == null {
        return [], 0;
      }
      PathShape(n);
      maxEntries := MaxLocatorEntries(n.height);
      locator := LocatorFrom(n);
    }

    /** The number of locator entries that a block at height h will need. */
    method MaxLocatorEntries(h: nat) returns (maxEntries: nat)
      requires h < 0x8000_0000
      ensures maxEntries == LocatorSize(h) < 256
    {
      if h <= 12 {
        maxEntries := h + 1;
      } else {
        var log := FastLog2Floor(h - 10);
        maxEntries := 12 + log;
      }
    }

    /** The loop that collects the locator entries. */
    method LocatorFrom(start: BlockNode) returns (locator: seq<Hash>)
      requires Valid()
      requires start.Wf() && 0 <= start.height < 0x8000_0000
      ensures IsLocator(locator, start)
      ensures |locator| == LocatorSize(start.height)
    {
      hide BlockNode.Wf, Path, LocatorHeight, LocatorStep, LocatorSize;
      PathShape(start);
      LocatorStart(start.height);
      locator := [];
      var step := 1;
      var n: BlockNode? := start;
      while n != null
        invariant n != null
        invariant n.height == Max(0, LocatorHeight(start.height, |locator|))
        invariant n == Path(start)[n.height]
        invariant n.height > 0 ==> step == LocatorStep(|locator| + 1)
        invariant forall k :: 0 <= k < |locator| ==>
                    && 0 < LocatorHeight(start.height, k) < |Path(start)|
                    && locator[k] == Path(start)[LocatorHeight(start.height, k)].block.hash
        decreases n.height
      {
        locator := locator + [n.block.hash];
        if n.height == 0 {
          break;
        }
        var height := n.height - step;
        if height < 0 {
          height := 0;
        }
        OnBranchIsPrefix(n, start);
        LocatorSteps(start.height, |locator| - 1);
        n := FastAncestor(n, height);
        if |locator| > 10 {
          step := Int32(step * 2);
        }
      }
      LocatorSizeExact(start.height, |locator|);
    }
  }

  /** The last block of the branch of n that is also on the branch of tip. */
  ghost function Fork(n: BlockNode?, tip: BlockNode?): BlockNode?
    requires n != null ==> n.Wf()
    requires tip != null ==> tip.Wf()
    decreases if n == null then -1 else n.height
  {
    if n == null then null
    else if OnBranch(n, tip) then n
    else Fork(n.parent, tip)
  }

  /** The fork is unchanged when the search starts at the height of the other tip. */
  lemma {:induction false} ForkFromAncestor(n: BlockNode, height: int, tip: BlockNode?)
    requires n.Wf()
    requires tip != null ==> tip.Wf()
    requires height < n.height && |Branch(tip)| <= height + 1
    ensures AncestorAt(n, height) != null ==> AncestorAt(n, height).Wf()
    ensures Fork(AncestorAt(n, height), tip) == Fork(n, tip)
    decreases n.height
  {
    PathShape(n);
    if n.parent != null {
      PathShape(n.parent);
      if height < n.parent.height {
        ForkFromAncestor(n.parent, height, tip);
      }
    }
  }

  /** The fork is the highest block that the two branches share, and nil exactly if
      they share none; below it they are the same. */
  lemma {:induction false} ForkIsHighestCommon(n: BlockNode?, tip: BlockNode?)
    requires n != null ==> n.Wf()
    requires tip != null ==> tip.Wf()
    ensures Fork(n, tip) != null ==> OnBranch(Fork(n, tip), n) && OnBranch(Fork(n, tip), tip)
    ensures forall h :: 0 <= h < |Branch(n)| && h < |Branch(tip)| ==>
              (Branch(n)[h] == Branch(tip)[h] <==> Fork(n, tip) != null && h <= Fork(n, tip).height)
    decreases if n == null then -1 else n.height
  {
    if n != null {
      PathShape(n);
      if OnBranch(n, tip) {
        OnBranchIsPrefix(n, tip);
        PathShape(tip);
      } else {
        ForkIsHighestCommon(n.parent, tip);
        if tip != null { PathShape(tip); }
      }
    }
  }

  // ----- Block locators -----

  function Max(a: int, b: int): int {
    if a < b then b else a
  }

  /** The value of an int32 that is assigned a wider result. */
  function Int32(x: int): int {
    (x + 0x8000_0000) % 0x1_0000_0000 - 0x8000_0000
  }

  /** The height of the k-th entry of the locator of a block at height h, as long as
      it is positive: the block and its previous 11 blocks one by one, then at
      distances that double. */
  function LocatorHeight(h: nat, k: nat): int {
    if k <= 10 then h - k else h - 9 - Pow2(k - 10)
  }

  /** The distance from entry k - 1 of a locator to entry k. */
  function LocatorStep(k: nat): nat {
    if k <= 11 then 1 else Pow2(k - 11)
  }

  /** The locator of a node: the hashes of its ancestors at the locator heights that
      are positive, then genesis. */
  ghost predicate IsLocator(locator: seq<Hash>, node: BlockNode)
    requires node.Wf()
  {
    && |locator| > 0
    && (forall k {:trigger locator[k]} :: 0 <= k < |locator| - 1 ==>
          && 0 < LocatorHeight(node.height, k) < |Path(node)|
          && locator[k] == Path(node)[LocatorHeight(node.height, k)].block.hash)
    && LocatorHeight(node.height, |locator| - 1) <= 0
    && locator[|locator| - 1] == Path(node)[0].block.hash
  }

  /** The number of entries of the locator of a block at height h. */
  function LocatorSize(h: nat): nat {
    if h <= 12 then h + 1 else 12 + Log2Floor(h - 10)
  }

  lemma LocatorStart(h: nat)
    ensures LocatorHeight(h, 0) == h && LocatorStep(1) == 1
  {}

  /** Consecutive locator heights differ by the step, and steps double after the
      eleventh entry. */
  lemma LocatorSteps(h: nat, k: nat)
    ensures LocatorHeight(h, k + 1) == LocatorHeight(h, k) - LocatorStep(k + 1)
    ensures LocatorStep(k + 2) == if k + 1 > 10 then 2 * LocatorStep(k + 1) else LocatorStep(k + 1)
    ensures LocatorHeight(h, k) <= h && LocatorStep(k + 1) > 0
    ensures LocatorHeight(h, k + 1) > 0 ==> LocatorStep(k + 2) < h
  {
    if k >= 10 {
      assert Pow2(k - 9) == 2 * Pow2(k - 10);
      assert Pow2(1) == 2 && Pow2(0) == 1;
    }
  }

  /** The number of entries down to the first height that is not positive is exactly
      the capacity. */
  lemma LocatorSizeExact(h: nat, size: nat)
    requires size > 0 && LocatorHeight(h, size - 1) <= 0
    requires size > 1 ==> LocatorHeight(h, size - 2) > 0
    ensures size == LocatorSize(h)
  {
    if size >= 13 {
      Log2FloorUnique(h - 10, size - 12);
    } else if size == 12 {
      assert Pow2(0) == 1 && Pow2(1) == 2;
    }
  }
}

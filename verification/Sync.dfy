// Answering the block locator of another node (chain.go).

module Sync {
  import opened Bits
  import opened BlockTree
  import opened ChainViews
  import opened Index

  /** A node is looked up by its hash and is on the branch of the tip. */
  ghost predicate KnownOnBranch(index: map<Hash, BlockNode>, tip: BlockNode, hash: Hash)
    requires tip.Wf()
  {
    hash in index && OnBranch(index[hash], tip)
  }

  /** The most recent block of a locator on the branch of the tip, or genesis. */
  ghost function StartBlock(index: map<Hash, BlockNode>, tip: BlockNode, locator: seq<Hash>): BlockNode
    requires tip.Wf()
  {
    if locator == [] then Path(tip)[0]
    else if KnownOnBranch(index, tip, locator[0]) then index[locator[0]]
    else StartBlock(index, tip, locator[1..])
  }

  lemma {:induction false} StartOnBranch(index: map<Hash, BlockNode>, tip: BlockNode, locator: seq<Hash>)
    requires tip.Wf()
    ensures OnBranch(StartBlock(index, tip, locator), tip)
  {
    PathShape(tip);
    if locator != [] && !KnownOnBranch(index, tip, locator[0]) {
      StartOnBranch(index, tip, locator[1..]);
    }
  }

  /** How many blocks a reply to a non-empty locator covers: up to the stop block if
      it comes after the start, to the tip otherwise, and not more than the maximum. */
  ghost function ReplySize(index: map<Hash, BlockNode>, tip: BlockNode, start: BlockNode, hashStop: Hash, max: nat): nat
    requires tip.Wf() && OnBranch(start, tip)
  {
    var end := if KnownOnBranch(index, tip, hashStop) && index[hashStop].height > start.height then index[hashStop].height
               else |Path(tip)| - 1;
    if end - start.height > max then max else end - start.height
  }

  // ----- What a reply is, told from the branch alone -----

  /** The most recent block of the branch of tip that a locator names has height h; when
      it names none, h is that of genesis. */
  ghost predicate LastKnown(index: map<Hash, BlockNode>, tip: BlockNode, locator: seq<Hash>, h: int)
    requires tip.Wf()
  {
    || (h == 0 && forall k :: 0 <= k < |locator| ==> !KnownOnBranch(index, tip, locator[k]))
    || exists k :: 0 <= k < |locator| && KnownOnBranch(index, tip, locator[k]) && index[locator[k]].height == h
         && forall j :: 0 <= j < k ==> !KnownOnBranch(index, tip, locator[j])
  }

  /** A number of blocks that follow height h on the branch of tip: no more than the
      maximum, and none after the stop block if that comes after h.  It is the greatest
      such number. */
  ghost predicate Covers(index: map<Hash, BlockNode>, tip: BlockNode, h: int, hashStop: Hash, max: nat, total: nat)
    requires tip.Wf()
  {
    && 0 <= h && h + total < |Path(tip)| && total <= max
    && if KnownOnBranch(index, tip, hashStop) && index[hashStop].height > h then
         h + total <= index[hashStop].height && (total == max || Path(tip)[h + total] == index[hashStop])
       else
         total == max || Path(tip)[h + total] == tip
  }

  /** A reply lists the hashes of these blocks in order. */
  ghost predicate IsReply(index: map<Hash, BlockNode>, tip: BlockNode, h: int, hashStop: Hash, max: nat, hashes: seq<Hash>)
    requires tip.Wf()
  {
    && Covers(index, tip, h, hashStop, max, |hashes|)
    && forall i :: 0 <= i < |hashes| ==> hashes[i] == Path(tip)[h + 1 + i].block.hash
  }

  lemma {:induction false} StartIsLastKnown(index: map<Hash, BlockNode>, tip: BlockNode, locator: seq<Hash>, h: int)
    requires tip.Wf() && LastKnown(index, tip, locator, h)
    ensures StartBlock(index, tip, locator).height == h
  {
    PathShape(tip);
    if locator != [] && !KnownOnBranch(index, tip, locator[0]) {
      if k :| 0 <= k < |locator| && KnownOnBranch(index, tip, locator[k]) && index[locator[k]].height == h
              && forall j :: 0 <= j < k ==> !KnownOnBranch(index, tip, locator[j]) {
        assert locator[1..][k - 1] == locator[k];
        assert forall j :: 0 <= j < k - 1 ==> locator[1..][j] == locator[j + 1];
      }
      StartIsLastKnown(index, tip, locator[1..], h);
    }
  }

  lemma SizeCovers(index: map<Hash, BlockNode>, tip: BlockNode, start: BlockNode, hashStop: Hash, max: nat)
    requires tip.Wf() && OnBranch(start, tip)
    ensures Covers(index, tip, start.height, hashStop, max, ReplySize(index, tip, start, hashStop, max))
  {
    hide BlockNode.Wf, Path;
    PathShape(tip);
  }

  /** There is such a height. */
  lemma {:induction false} SomeLastKnown(index: map<Hash, BlockNode>, tip: BlockNode, locator: seq<Hash>) returns (h: int)
    requires tip.Wf()
    ensures LastKnown(index, tip, locator, h)
  {
    if locator == [] {
      h := 0;
    } else if KnownOnBranch(index, tip, locator[0]) {
      h := index[locator[0]].height;
    } else {
      var rest := locator[1..];
      h := SomeLastKnown(index, tip, rest);
      if k :| 0 <= k < |rest| && KnownOnBranch(index, tip, rest[k]) && index[rest[k]].height == h
              && forall j :: 0 <= j < k ==> !KnownOnBranch(index, tip, rest[j]) {
        assert rest[k] == locator[k + 1];
        assert forall j :: 0 < j < k + 1 ==> locator[j] == rest[j - 1];
      } else {
        assert forall j :: 0 < j < |locator| ==> locator[j] == rest[j - 1];
      }
    }
  }

  lemma StartCovers(index: map<Hash, BlockNode>, tip: BlockNode, locator: seq<Hash>, hashStop: Hash, max: nat)
    requires tip.Wf()
    ensures var start := StartBlock(index, tip, locator);
            && OnBranch(start, tip)
            && forall h :: LastKnown(index, tip, locator, h) ==>
                 h == start.height && Covers(index, tip, h, hashStop, max, ReplySize(index, tip, start, hashStop, max))
  {
    hide BlockNode.Wf, Path, StartBlock, LastKnown, Covers, ReplySize;
    StartOnBranch(index, tip, locator);
    SizeCovers(index, tip, StartBlock(index, tip, locator), hashStop, max);
    forall h | LastKnown(index, tip, locator, h) ensures h == StartBlock(index, tip, locator).height {
      StartIsLastKnown(index, tip, locator, h);
    }
  }

  lemma CoversAtMost(index: map<Hash, BlockNode>, tip: BlockNode, locator: seq<Hash>, hashStop: Hash, max: nat)
    requires tip.Wf()
    ensures OnBranch(StartBlock(index, tip, locator), tip)
    ensures ReplySize(index, tip, StartBlock(index, tip, locator), hashStop, max) <= max
    ensures var start := StartBlock(index, tip, locator);
            0 <= start.height && start.height + ReplySize(index, tip, start, hashStop, max) < |Path(tip)|
  {
    hide BlockNode.Wf, Path;
    PathShape(tip);
    StartOnBranch(index, tip, locator);
  }

  /** There is exactly one reply. */
  lemma OneReply(index: map<Hash, BlockNode>, tip: BlockNode, locator: seq<Hash>, h: int, h': int, hashStop: Hash, max: nat, a: seq<Hash>, b: seq<Hash>)
    requires tip.Wf() && LastKnown(index, tip, locator, h) && LastKnown(index, tip, locator, h')
    requires IsReply(index, tip, h, hashStop, max, a) && IsReply(index, tip, h', hashStop, max, b)
    ensures h == h' && a == b
  {
    hide BlockNode.Wf, Path;
    StartIsLastKnown(index, tip, locator, h);
    StartIsLastKnown(index, tip, locator, h');
    PathShape(tip);
    assert |a| == |b|;
    assert forall i :: 0 <= i < |a| ==> a[i] == b[i];
  }

  /** With no known block in the locator the reply starts after genesis; it ends with the
      stop block if that comes within the maximum; without a stop block it is as long as
      the maximum or ends at the tip. */
  lemma ReplyEnds(index: map<Hash, BlockNode>, tip: BlockNode, locator: seq<Hash>, h: int, hashStop: Hash, max: nat, hashes: seq<Hash>)
    requires tip.Wf() && LastKnown(index, tip, locator, h) && IsReply(index, tip, h, hashStop, max, hashes)
    requires forall hash :: hash in index ==> index[hash].block.hash == hash
    ensures |hashes| <= max
    ensures max > 0 && |Path(tip)| > 1 && (forall k :: 0 <= k < |locator| ==> !KnownOnBranch(index, tip, locator[k])) &&
            (KnownOnBranch(index, tip, hashStop) ==> index[hashStop].height > 0) ==>
              hashes != [] && hashes[0] == Path(tip)[1].block.hash
    ensures KnownOnBranch(index, tip, hashStop) && h < index[hashStop].height <= h + max ==>
              hashes != [] && hashes[|hashes| - 1] == hashStop
    ensures !KnownOnBranch(index, tip, hashStop) && |hashes| < max && hashes != [] ==> hashes[|hashes| - 1] == tip.block.hash
    ensures !KnownOnBranch(index, tip, hashStop) && |hashes| < max && hashes == [] ==> Path(tip)[h] == tip
  {
    hide BlockNode.Wf, Path;
    PathShape(tip);
  }

  method LocateInventory(index: BlockIndex, bestChain: ChainView, locator: seq<Hash>, hashStop: Hash, maxEntries: nat)
    returns (node: BlockNode?, total: nat)
    requires bestChain.Valid() && bestChain.Tip() != null
    ensures locator == [] ==> node == index.LookupNode(hashStop) && total == if node == null then 0 else 1
    ensures locator != [] ==>
              var tip := bestChain.Tip();
              var start := StartBlock(index.index, tip, locator);
              && OnBranch(start, tip)
              && (start == tip ==> node == null && total == 0)
              && (start != tip ==>
                    && start.height + 1 < |Path(tip)| && node == Path(tip)[start.height + 1]
                    && total == ReplySize(index.index, tip, start, hashStop, maxEntries))
    ensures locator != [] ==>
              forall h :: LastKnown(index.index, bestChain.Tip(), locator, h) ==>
                && Covers(index.index, bestChain.Tip(), h, hashStop, maxEntries, total)
                && (node != null ==> h + 1 < |Path(bestChain.Tip())| && node == Path(bestChain.Tip())[h + 1])
  {
    hide BlockNode.Wf, Path, ChainView.Valid, ChainView.Tip, LastKnown, Covers;
    var stopNode := index.LookupNode(hashStop);
    if |locator| == 0 {
      if stopNode == null {
        return null, 0;
      }
      return stopNode, 1;
    }
    var tip := bestChain.Tip();
    PathShape(tip);
    StartCovers(index.index, tip, locator, hashStop, maxEntries);
    var startNode := bestChain.Genesis();
    var i := 0;
    while i < |locator|
      invariant 0 <= i <= |locator|
      invariant StartBlock(index.index, tip, locator) == StartBlock(index.index, tip, locator[i..])
      invariant startNode == Path(tip)[0]
    {
      var known := index.LookupNode(locator[i]);
      if known != null && bestChain.Contains(known) {
        startNode := known;
        break;
      }
      assert locator[i..][1..] == locator[i + 1..];
      i := i + 1;
    }
    ghost var start := startNode;
    StartOnBranch(index.index, tip, locator);
    assert start == StartBlock(index.index, tip, locator);
    node := bestChain.Next(startNode);
    if node == null {
      return null, 0;
    }
    NextOf(start, tip, node);
    total := tip.height - node.height + 1;
    if stopNode != null && bestChain.Contains(stopNode) && stopNode.height >= node.height {
      total := stopNode.height - node.height + 1;
    }
    if total > maxEntries {
      total := maxEntries;
    }
  }

  lemma NextOf(start: BlockNode, tip: BlockNode, next: BlockNode)
    requires tip.Wf() && OnBranch(start, tip) && OnBranch(next, tip) && next.parent == start
    ensures next.height == start.height + 1 && start != tip && Path(tip)[start.height + 1] == next
    ensures |Path(tip)| == tip.height + 1
  {
    PathShape(tip);
    if next.height > 0 {
      Links(tip, next.height);
    } else {
      OnBranchIsPrefix(next, tip);
      ParentWf(next);
    }
  }

  method LocateBlocks(index: BlockIndex, bestChain: ChainView, locator: seq<Hash>, hashStop: Hash, maxHashes: nat)
    returns (hashes: seq<Hash>)
    requires bestChain.Valid() && bestChain.Tip() != null
    ensures locator == [] ==>
              hashes == if index.LookupNode(hashStop) == null then [] else [index.LookupNode(hashStop).block.hash]
    ensures locator != [] ==>
              var tip := bestChain.Tip();
              var start := StartBlock(index.index, tip, locator);
              && OnBranch(start, tip)
              && |hashes| == ReplySize(index.index, tip, start, hashStop, maxHashes) < |Path(tip)| - start.height
              && forall i :: 0 <= i < |hashes| ==> hashes[i] == Path(tip)[start.height + 1 + i].block.hash
    ensures locator != [] ==> |hashes| <= maxHashes
    ensures locator != [] ==>
              forall h :: LastKnown(index.index, bestChain.Tip(), locator, h) ==>
                IsReply(index.index, bestChain.Tip(), h, hashStop, maxHashes, hashes)
  {
    hide BlockNode.Wf, Path, ChainView.Valid, ChainView.Tip, LastKnown, Covers, StartBlock, ReplySize;
    var node, total := LocateInventory(index, bestChain, locator, hashStop, maxHashes);
    ghost var tip, first := bestChain.Tip(), node;
    PathShape(tip);
    StartCovers(index.index, tip, locator, hashStop, maxHashes);
    CoversAtMost(index.index, tip, locator, hashStop, maxHashes);
    hashes := [];
    if total == 0 {
      return;
    }
    var i := 0;
    while i < total
      invariant 0 <= i == |hashes| <= total
      invariant locator == [] ==> (i < total ==> node == first) && (forall j :: 0 <= j < i ==> hashes[j] == first.block.hash)
      invariant locator != [] ==>
                  && (i < total ==> node != null && node == Path(tip)[first.height + i])
                  && forall j :: 0 <= j < i ==> hashes[j] == Path(tip)[first.height + j].block.hash
    {
      hashes := hashes + [node.block.hash];
      if locator != [] && i + 1 < total {
        bestChain.NextLinks(node);
      }
      node := bestChain.Next(node);
      i := i + 1;
    }
  }

  // ----- Locators built by another node -----

  /** The branch of m, as another node knows it, agrees by hash with the branch of tip
      up to height f and shares no block with it above.  The hashes of the branch of
      tip are indexed. */
  ghost predicate ForksAt(index: map<Hash, BlockNode>, m: BlockNode, tip: BlockNode, f: nat)
    requires m.Wf() && tip.Wf()
  {
    && f < |Path(m)| && f < |Path(tip)|
    && (forall h :: 0 <= h <= f ==> Path(m)[h].block.hash == Path(tip)[h].block.hash)
    && (forall h, j :: f < h < |Path(m)| && 0 <= j < |Path(tip)| ==> Path(m)[h].block.hash != Path(tip)[j].block.hash)
    && (forall j :: 0 <= j < |Path(tip)| ==>
          Path(tip)[j].block.hash in index && index[Path(tip)[j].block.hash] == Path(tip)[j])
    && (forall hash :: hash in index ==> index[hash].block.hash == hash)
  }

  /** The height of entry k of a locator that has it. */
  function EntryHeight(h: nat, k: nat): nat {
    Max(0, LocatorHeight(h, k))
  }

  lemma EntryAt(locator: seq<Hash>, m: BlockNode, k: nat)
    requires m.Wf() && IsLocator(locator, m) && k < |locator|
    ensures EntryHeight(m.height, k) < |Path(m)| && locator[k] == Path(m)[EntryHeight(m.height, k)].block.hash
  {
    hide BlockNode.Wf, Path, LocatorHeight;
    assert locator[k] == locator[k];
  }

  /** A locator entry is a known block of the branch of tip exactly if it is not above
      the fork, and then it is the block at its height. */
  lemma EntryKnown(index: map<Hash, BlockNode>, m: BlockNode, tip: BlockNode, f: nat, locator: seq<Hash>, k: nat)
    requires m.Wf() && tip.Wf() && ForksAt(index, m, tip, f) && IsLocator(locator, m) && k < |locator|
    ensures EntryHeight(m.height, k) < |Path(m)|
    ensures KnownOnBranch(index, tip, locator[k]) <==> EntryHeight(m.height, k) <= f
    ensures EntryHeight(m.height, k) <= f ==> index[locator[k]] == Path(tip)[EntryHeight(m.height, k)]
  {
    hide BlockNode.Wf, Path, LocatorHeight, IsLocator, EntryHeight;
    PathShape(m);
    PathShape(tip);
    EntryAt(locator, m, k);
    var e := EntryHeight(m.height, k);
    if e > f && KnownOnBranch(index, tip, locator[k]) {
      assert false;
    }
  }

  /** The first entry of a locator that is not above height f. */
  lemma {:induction false} FirstBelow(h: nat, f: nat, k: nat, size: nat) returns (first: nat)
    requires k < size && LocatorHeight(h, size - 1) <= 0
    requires forall i :: 0 <= i < k ==> EntryHeight(h, i) > f
    ensures k <= first < size && EntryHeight(h, first) <= f
    ensures forall i :: 0 <= i < first ==> EntryHeight(h, i) > f
    decreases size - k
  {
    hide LocatorHeight;
    if EntryHeight(h, k) <= f {
      first := k;
    } else {
      first := FirstBelow(h, f, k + 1, size);
    }
  }

  /** How far that entry is below f: not at all for the 11 blocks before h, and for
      others by at most the distance of f from h, minus 11. */
  lemma FirstBelowDistance(h: nat, f: nat, first: nat)
    requires f <= h && EntryHeight(h, first) <= f
    requires forall i :: 0 <= i < first ==> EntryHeight(h, i) > f
    ensures h - f <= 11 ==> EntryHeight(h, first) == f
    ensures h - f > 11 ==> f - EntryHeight(h, first) <= h - f - 11
  {
    assert Pow2(0) == 1 && Pow2(1) == 2;
    if first > 0 {
      assert EntryHeight(h, first - 1) > f;
      LocatorSteps(h, first - 1);
      if first >= 12 {
        assert Pow2(first - 10) == 2 * Pow2(first - 11);
        Pow2Monotone(1, first - 11);
      }
    }
  }

  /** Skipping the entries that are not known. */
  lemma {:induction false} StartIsFirstKnown(index: map<Hash, BlockNode>, tip: BlockNode, locator: seq<Hash>, first: nat)
    requires tip.Wf() && first < |locator| && KnownOnBranch(index, tip, locator[first])
    requires forall i :: 0 <= i < first ==> !KnownOnBranch(index, tip, locator[i])
    ensures StartBlock(index, tip, locator) == index[locator[first]]
    decreases first
  {
    if first > 0 {
      StartIsFirstKnown(index, tip, locator[1..], first - 1);
    }
  }

  /** A node that answers the locator of a block starts exactly at the fork of the two
      branches when the block is at most 11 above it; otherwise it starts at most the
      block's distance from the fork, minus 11, too low. */
  lemma LocatorMeetsLocate(index: map<Hash, BlockNode>, m: BlockNode, tip: BlockNode, f: nat, locator: seq<Hash>)
    requires m.Wf() && tip.Wf() && ForksAt(index, m, tip, f) && IsLocator(locator, m)
    ensures var start := StartBlock(index, tip, locator);
            var d := m.height - f;
            && OnBranch(start, tip) && start.height <= f
            && (d <= 11 ==> start == Path(tip)[f])
            && (d > 11 ==> f - start.height <= d - 11)
  {
    hide BlockNode.Wf, Path, LocatorHeight, KnownOnBranch, StartBlock, ForksAt;
    PathShape(m);
    PathShape(tip);
    LocatorLength(locator, m);
    var first := FirstBelow(m.height, f, 0, |locator|);
    ForkHeights(index, m, tip, f);
    FirstBelowDistance(m.height, f, first);
    forall i | 0 <= i < first ensures !KnownOnBranch(index, tip, locator[i]) {
      EntryKnown(index, m, tip, f, locator, i);
    }
    EntryKnown(index, m, tip, f, locator, first);
    StartIsFirstKnown(index, tip, locator, first);
    StartOnBranch(index, tip, locator);
  }

  /** So a reply of more than that many hashes, without a stop block, holds the first
      block of the best chain that the other node does not have on its branch. */
  lemma ReplyReachesNewBlock(index: map<Hash, BlockNode>, m: BlockNode, tip: BlockNode, f: nat, locator: seq<Hash>, hashStop: Hash, max: nat)
    requires m.Wf() && tip.Wf() && ForksAt(index, m, tip, f) && IsLocator(locator, m)
    requires f + 1 < |Path(tip)| && !KnownOnBranch(index, tip, hashStop)
    requires max > Max(0, m.height - f - 11)
    ensures var start := StartBlock(index, tip, locator);
            OnBranch(start, tip) && start.height <= f < start.height + ReplySize(index, tip, start, hashStop, max)
  {
    hide BlockNode.Wf, Path, StartBlock, ForksAt, IsLocator, KnownOnBranch;
    LocatorMeetsLocate(index, m, tip, f, locator);
    PathShape(tip);
  }

  lemma LocatorLength(locator: seq<Hash>, m: BlockNode)
    requires m.Wf() && IsLocator(locator, m)
    ensures |locator| > 0 && LocatorHeight(m.height, |locator| - 1) <= 0
  {}

  lemma ForkHeights(index: map<Hash, BlockNode>, m: BlockNode, tip: BlockNode, f: nat)
    requires m.Wf() && tip.Wf() && ForksAt(index, m, tip, f)
    ensures f < |Path(m)| && f < |Path(tip)|
  {}
}

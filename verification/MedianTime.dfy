// The past median time of a block (blockindex.go), and why it never goes backwards
// along a branch whose timestamps follow the rule of doc.go.

module MedianTime {
  import opened BlockTree

  /** The number of previous blocks that the median is taken of. */
  const MEDIAN_TIME_BLOCKS := 11

  /** The timestamps of a node and its ancestors, newest first, at most k of them. */
  ghost function Window(n: BlockNode?, k: nat): seq<int>
    requires n != null ==> n.Wf()
    decreases k
  {
    if n == null || k == 0 then [] else [n.block.timestamp] + Window(n.parent, k - 1)
  }

  /** The last timestamps of a list of blocks, at most k of them, newest first. */
  ghost function LastTimestamps(nodes: seq<BlockNode>, k: nat): (s: seq<int>)
    ensures |s| == if |nodes| < k then |nodes| else k
    ensures forall i :: 0 <= i < |s| ==> s[i] == nodes[|nodes| - 1 - i].block.timestamp
  {
    var size := if |nodes| < k then |nodes| else k;
    seq(size, i requires 0 <= i < size => nodes[|nodes| - 1 - i].block.timestamp)
  }

  lemma LastStep(nodes: seq<BlockNode>, n: BlockNode, k: nat)
    ensures LastTimestamps(nodes + [n], k + 1) == [n.block.timestamp] + LastTimestamps(nodes, k)
  {}

  /** The window is read off the branch. */
  lemma {:induction false} WindowIsLast(n: BlockNode, k: nat)
    requires n.Wf()
    ensures Window(n, k) == LastTimestamps(Path(n), k)
    decreases k
  {
    hide LastTimestamps, Window, Path, BlockNode.Wf;
    ParentWf(n);
    PathEnd(n);
    if k == 0 {
      WindowEnd(n, k);
    } else {
      WindowStep(n, k);
      if n.parent != null {
        WindowIsLast(n.parent, k - 1);
        LastStep(Path(n.parent), n, k - 1);
      } else {
        WindowEnd(null, k - 1);
        LastStep([], n, k - 1);
      }
    }
  }

  lemma PathEnd(n: BlockNode)
    requires n.Wf() && (n.parent != null ==> n.parent.Wf())
    ensures Path(n) == (if n.parent == null then [] else Path(n.parent)) + [n]
  {}

  // ----- Sorting (timesorter.go hands the timestamps to the library's sort) -----

  ghost predicate Ordered(s: seq<int>) {
    |s| > 1 ==> s[0] <= s[1] && Ordered(s[1..])
  }

  function Insert(x: int, s: seq<int>): seq<int> {
    if s == [] || x <= s[0] then [x] + s else [s[0]] + Insert(x, s[1..])
  }

  function Sort(s: seq<int>): seq<int> {
    if s == [] then [] else Insert(s[0], Sort(s[1..]))
  }

  /** How many elements are below a value. */
  function CountBelow(s: seq<int>, v: int): nat {
    if s == [] then 0 else (if s[0] < v then 1 else 0) + CountBelow(s[1..], v)
  }

  lemma {:induction false} InsertOrdered(x: int, s: seq<int>)
    requires Ordered(s)
    ensures Ordered(Insert(x, s))
    ensures s != [] ==> Insert(x, s)[0] == if x <= s[0] then x else s[0]
  {
    if s == [] {
    } else if x <= s[0] {
      assert ([x] + s)[1..] == s;
    } else {
      InsertOrdered(x, s[1..]);
      assert Insert(x, s)[1..] == Insert(x, s[1..]);
    }
  }

  lemma {:induction false} InsertKeeps(x: int, s: seq<int>, v: int)
    ensures multiset(Insert(x, s)) == multiset(s) + multiset{x} && |Insert(x, s)| == |s| + 1
    ensures CountBelow(Insert(x, s), v) == CountBelow(s, v) + if x < v then 1 else 0
  {
    if s == [] || x <= s[0] {
      assert ([x] + s)[1..] == s;
    } else {
      InsertKeeps(x, s[1..], v);
      InsertHead(x, s);
    }
  }

  lemma InsertHead(x: int, s: seq<int>)
    requires s != [] && x > s[0]
    ensures Insert(x, s)[0] == s[0] && Insert(x, s)[1..] == Insert(x, s[1..])
    ensures multiset(Insert(x, s)) == multiset{s[0]} + multiset(Insert(x, s[1..]))
    ensures multiset(s) == multiset{s[0]} + multiset(s[1..])
  {
    assert s == [s[0]] + s[1..];
  }

  /** Sort returns the same elements in order. */
  lemma {:induction false} SortSorts(s: seq<int>, v: int)
    ensures Ordered(Sort(s)) && |Sort(s)| == |s| && multiset(Sort(s)) == multiset(s)
    ensures CountBelow(Sort(s), v) == CountBelow(s, v)
  {
    if s != [] {
      hide Insert, Ordered;
      SortSorts(s[1..], v);
      InsertOrdered(s[0], Sort(s[1..]));
      InsertKeeps(s[0], Sort(s[1..]), v);
      assert s == [s[0]] + s[1..];
    }
  }

  /** In an ordered sequence the elements below v come first. */
  lemma {:induction false} Rank(s: seq<int>, k: nat, v: int)
    requires Ordered(s) && k < |s|
    ensures s[k] < v <==> k < CountBelow(s, v)
  {
    if s[0] >= v {
      NoneBelow(s, k, v);
    } else if k > 0 {
      Rank(s[1..], k - 1, v);
    }
  }

  lemma {:induction false} NoneBelow(s: seq<int>, k: nat, v: int)
    requires Ordered(s) && k < |s| && s[0] >= v
    ensures s[k] >= v && CountBelow(s, v) == 0
  {
    if |s| > 1 {
      NoneBelow(s[1..], if k > 0 then k - 1 else 0, v);
    }
  }

  // ----- The median -----

  ghost function MedianOf(n: BlockNode): int
    requires n.Wf()
  {
    var w := Window(n, MEDIAN_TIME_BLOCKS);
    SortSorts(w, 0);
    Sort(w)[|w| / 2]
  }

  lemma WindowStep(n: BlockNode, k: nat)
    requires n.Wf() && k > 0 && (n.parent != null ==> n.parent.Wf())
    ensures Window(n, k) == [n.block.timestamp] + Window(n.parent, k - 1)
  {}

  lemma WindowEnd(n: BlockNode?, k: nat)
    requires n == null || (n.Wf() && k == 0)
    ensures Window(n, k) == []
  {}

  method CalcPastMedianTime(node: BlockNode) returns (median: int)
    requires node.Wf()
    ensures median == MedianOf(node)
    ensures IsMedian(median, LastTimestamps(Path(node), 11))
  {
    hide Sort, Ordered, CountBelow, Path, BlockNode.Wf, Window;
    var timestamps := new int[MEDIAN_TIME_BLOCKS];
    var numNodes, iterNode: BlockNode? := 0, node;
    var i := 0;
    while i < MEDIAN_TIME_BLOCKS && iterNode != null
      invariant 0 <= i == numNodes <= MEDIAN_TIME_BLOCKS
      invariant iterNode != null ==> iterNode.Wf()
      invariant i == 0 ==> iterNode != null
      invariant Window(node, MEDIAN_TIME_BLOCKS) == timestamps[..i] + Window(iterNode, MEDIAN_TIME_BLOCKS - i)
    {
      ParentWf(iterNode);
      WindowStep(iterNode, MEDIAN_TIME_BLOCKS - i);
      timestamps[i] := iterNode.block.timestamp;
      numNodes := numNodes + 1;
      iterNode := iterNode.parent;
      i := i + 1;
    }
    WindowEnd(iterNode, MEDIAN_TIME_BLOCKS - i);
    var pruned := timestamps[..numNodes];
    assert pruned == Window(node, MEDIAN_TIME_BLOCKS);
    SortSorts(pruned, 0);
    median := Sort(pruned)[numNodes / 2];
    MedianOfLast(node);
  }

  /** An element of a list with at most half of it below, and more than half not above:
      the upper one of two middle elements. */
  ghost predicate IsMedian(m: int, s: seq<int>) {
    m in s && CountBelow(s, m) <= |s| / 2 && |s| / 2 < CountBelow(s, m + 1)
  }

  /** A list has only one such element. */
  lemma MedianIsUnique(s: seq<int>, a: int, b: int)
    requires IsMedian(a, s) && IsMedian(b, s)
    ensures a == b
  {
    if a < b {
      MoreBelow(s, a + 1, b);
    } else if b < a {
      MoreBelow(s, b + 1, a);
    }
  }

  lemma {:induction false} MoreBelow(s: seq<int>, u: int, v: int)
    requires u <= v
    ensures CountBelow(s, u) <= CountBelow(s, v)
  {
    if s != [] {
      MoreBelow(s[1..], u, v);
    }
  }

  /** The past median time is the median of the timestamps of the last 11 blocks of the
      branch, or of all if there are fewer. */
  lemma MedianOfLast(n: BlockNode)
    requires n.Wf()
    ensures IsMedian(MedianOf(n), LastTimestamps(Path(n), 11))
  {
    hide CountBelow, Path, BlockNode.Wf, LastTimestamps, Window, Sort;
    WindowIsLast(n, 11);
    MedianRank(n, MedianOf(n));
    MedianRank(n, MedianOf(n) + 1);
  }

  /** The median is the element of the window with at most half the window below it
      and more than half not above it: the upper one of two middle elements. */
  lemma MedianRank(n: BlockNode, v: int)
    requires n.Wf()
    ensures MedianOf(n) in Window(n, MEDIAN_TIME_BLOCKS)
    ensures MedianOf(n) < v <==> |Window(n, MEDIAN_TIME_BLOCKS)| / 2 < CountBelow(Window(n, MEDIAN_TIME_BLOCKS), v)
  {
    var w := Window(n, MEDIAN_TIME_BLOCKS);
    SortSorts(w, v);
    Rank(Sort(w), |w| / 2, v);
    assert MedianOf(n) in multiset(Sort(w));
  }

  /** A longer window only adds timestamps. */
  lemma {:induction false} WiderWindow(n: BlockNode?, k: nat, v: int)
    requires n != null ==> n.Wf()
    ensures CountBelow(Window(n, k), v) <= CountBelow(Window(n, k + 1), v)
    ensures |Window(n, k)| <= |Window(n, k + 1)| <= k + 1
    ensures |Window(n, k + 1)| <= |Window(n, k)| + 1
    decreases k
  {
    if n != null && k > 0 {
      WiderWindow(n.parent, k - 1, v);
      assert Window(n, k)[1..] == Window(n.parent, k - 1);
      assert Window(n, k + 1)[1..] == Window(n.parent, k);
    }
  }

  /** The timestamp rule: every block is later than its parent's past median. */
  ghost predicate TimestampsRise(n: BlockNode)
    requires n.Wf()
    decreases n.height
  {
    n.parent == null || (n.block.timestamp > MedianOf(n.parent) && TimestampsRise(n.parent))
  }

  lemma MedianRisesOnce(n: BlockNode)
    requires n.Wf() && n.parent != null
    requires n.block.timestamp > MedianOf(n.parent)
    ensures MedianOf(n.parent) <= MedianOf(n)
  {
    var p, k := n.parent, MEDIAN_TIME_BLOCKS - 1;
    var m := MedianOf(p);
    MedianRank(p, m);
    MedianRank(n, m);
    WiderWindow(p, k, m);
    assert Window(n, k + 1)[1..] == Window(p, k);
  }

  /** Along a branch that follows the timestamp rule the past median time never goes
      backwards, also in the short windows near genesis. */
  lemma {:induction false} MedianNeverFalls(n: BlockNode, h: int)
    requires n.Wf() && TimestampsRise(n) && 0 <= h < |Path(n)|
    ensures Path(n)[h].Wf() && MedianOf(Path(n)[h]) <= MedianOf(n)
    decreases n.height
  {
    PathShape(n);
    if h < n.height {
      PathShape(n.parent);
      MedianNeverFalls(n.parent, h);
      MedianRisesOnce(n);
    }
  }
}

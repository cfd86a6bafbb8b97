// Serving compact filter checkpoints: the block hashes at regular heights of a branch
// (chain.go) and the cache of their filter headers (server.go).

module CfCheckpoints {
  import opened Wrappers
  import opened Arithmetic
  import opened BlockTree
  import opened ChainViews
  import opened Index

  // ----- Interval block hashes -----

  /** The hashes of the blocks of a branch whose height is a positive multiple of the
      interval, lowest first. */
  ghost function IntervalHashes(n: BlockNode, interval: nat): seq<Hash>
    requires n.Wf() && interval > 0
    decreases n.height
  {
    if n.parent == null then []
    else IntervalHashes(n.parent, interval) + if n.height % interval == 0 then [n.block.hash] else []
  }

  lemma DivStep(h: nat, interval: nat)
    requires h > 0 && interval > 0
    ensures h / interval == (h - 1) / interval + if h % interval == 0 then 1 else 0
    ensures h % interval == 0 ==> (h / interval) * interval == h
  {
    var q, r := (h - 1) / interval, (h - 1) % interval;
    assert h == interval * q + (r + 1);
    if r + 1 == interval {
      assert h == interval * (q + 1);
      DivUnique(h, interval, q + 1, 0);
    } else {
      DivUnique(h, interval, q, r + 1);
    }
  }

  /** The i-th of these hashes is that of the block at height (i + 1) * interval. */
  lemma IntervalAt(n: BlockNode, interval: nat, i: nat)
    requires n.Wf() && interval > 0
    ensures |IntervalHashes(n, interval)| == n.height / interval
    ensures i < n.height / interval ==>
              0 < (i + 1) * interval < |Path(n)|
              && IntervalHashes(n, interval)[i] == Path(n)[(i + 1) * interval].block.hash
  {
    IntervalAtHeight(n, interval, i, (i + 1) * interval);
  }

  ghost predicate IsMultiple(m: int, i: nat, interval: nat) {
    m == (i + 1) * interval
  }

  lemma MultipleBelow(m: int, i: nat, interval: nat, h: nat)
    requires IsMultiple(m, i, interval) && interval > 0
    ensures i < h / interval ==> 0 < m <= h
    ensures i + 1 == h / interval && h % interval == 0 ==> m == h
  {
    assert h == interval * (h / interval) + h % interval;
    if i < h / interval {
      assert h / interval == (i + 1) + (h / interval - i - 1);
      assert interval * (h / interval) == m + interval * (h / interval - i - 1);
    }
  }

  lemma {:induction false} IntervalAtHeight(n: BlockNode, interval: nat, i: nat, m: int)
    requires n.Wf() && interval > 0 && IsMultiple(m, i, interval)
    ensures |IntervalHashes(n, interval)| == n.height / interval
    ensures i < n.height / interval ==>
              0 < m < |Path(n)| && IntervalHashes(n, interval)[i] == Path(n)[m].block.hash
    decreases n.height
  {
    hide IsMultiple;
    PathShape(n);
    MultipleBelow(m, i, interval, n.height);
    if n.parent != null {
      PathShape(n.parent);
      IntervalAtHeight(n.parent, interval, i, m);
      DivStep(n.height, interval);
      MultipleBelow(m, i, interval, n.parent.height);
    }
  }

  /** The lists of an ancestor's branch is the start of the list of the branch. */
  lemma {:induction false} IntervalPrefix(n: BlockNode, interval: nat, h: int)
    requires n.Wf() && interval > 0 && 0 <= h < |Path(n)|
    ensures Path(n)[h].Wf()
    ensures IntervalHashes(Path(n)[h], interval) <= IntervalHashes(n, interval)
    decreases n.height
  {
    PathShape(n);
    if h < n.height {
      PathShape(n.parent);
      IntervalPrefix(n.parent, interval, h);
    }
  }

  function Times(i: nat, d: nat): nat {
    i * d
  }

  lemma TimesBounds(i: nat, h: nat, d: nat)
    requires d > 0 && i == h / d
    ensures Times(i, d) <= h
  {
    assert h == d * (h / d) + h % d;
  }

  lemma IntervalCount(n: BlockNode, interval: nat)
    requires n.Wf() && interval > 0
    ensures 0 <= n.height / interval == |IntervalHashes(n, interval)|
  {
    IntervalAt(n, interval, 0);
    ParentWf(n);
  }

  lemma IntervalBlock(n: BlockNode, interval: nat, i: nat)
    requires n.Wf() && interval > 0 && 0 < i <= |IntervalHashes(n, interval)|
    ensures Times(i - 1, interval) <= Times(i, interval) < |Path(n)|
    ensures IntervalHashes(n, interval)[i - 1] == Path(n)[Times(i, interval)].block.hash
  {
    hide BlockNode.Wf, Path, IntervalHashes, Times, IsMultiple;
    TimesStep(i, interval);
    IntervalAtHeight(n, interval, i - 1, Times(i, interval));
  }

  lemma TimesStep(i: nat, d: nat)
    requires i > 0
    ensures Times(i - 1, d) + d == Times(i, d) && IsMultiple(Times(i, d), i - 1, d)
  {}

  method IntervalBlockHashes(index: BlockIndex, bestChain: ChainView, endHash: Hash, interval: nat) returns (r: Option<seq<Hash>>)
    requires index.Valid() && bestChain.Valid() && interval > 0
    requires forall n :: n in index.Nodes() ==> n.Wf()
    ensures r.Some? <==> endHash in index.index && index.index[endHash].status.KnownValid()
    ensures r.Some? ==> index.index[endHash].Wf() && r.value == IntervalHashes(index.index[endHash], interval)
  {
    hide BlockNode.Wf, Path, IntervalHashes, ChainView.Valid, ChainView.Tip, Times;
    var endNode := index.LookupNode(endHash);
    if endNode == null || !endNode.status.KnownValid() {
      return None;
    }
    assert endNode in index.Nodes();
    IntervalCount(endNode, interval);
    var resultsLength := endNode.height / interval;
    var hashes := CollectIntervals(bestChain, endNode, interval, resultsLength);
    r := Some(hashes);
  }

  /** Walks down from the end block, to one multiple of the interval after the other. */
  method CollectIntervals(bestChain: ChainView, endNode: BlockNode, interval: nat, resultsLength: nat) returns (r: seq<Hash>)
    requires bestChain.Valid() && endNode.Wf() && interval > 0 && resultsLength == |IntervalHashes(endNode, interval)|
    ensures r == IntervalHashes(endNode, interval)
  {
    hide BlockNode.Wf, Path, IntervalHashes, ChainView.Valid, ChainView.Tip, Times;
    PathShape(endNode);
    IntervalEnd(endNode, interval);
    var hashes := new Hash[resultsLength];
    var blockNode: BlockNode := endNode;
    var i := resultsLength;
    while i > 0
      invariant 0 <= i <= resultsLength
      invariant blockNode.Wf() && OnBranch(blockNode, endNode) && Times(i, interval) <= blockNode.height
      invariant hashes[i..] == IntervalHashes(endNode, interval)[i..]
    {
      IntervalBlock(endNode, interval, i);
      OnBranchIsPrefix(blockNode, endNode);
      PathShape(blockNode);
      var blockHeight := Times(i, interval);
      blockNode := bestChain.FastAncestor(blockNode, blockHeight);
      hashes[i - 1] := blockNode.block.hash;
      i := i - 1;
    }
    assert hashes[0..] == hashes[..];
    r := hashes[..];
  }

  lemma IntervalEnd(n: BlockNode, interval: nat)
    requires n.Wf() && interval > 0
    ensures n.height >= 0 && Times(|IntervalHashes(n, interval)|, interval) <= n.height
  {
    hide BlockNode.Wf, Path, IntervalHashes, Times;
    IntervalCount(n, interval);
    TimesBounds(n.height / interval, n.height, interval);
  }

  // ----- The cache -----

  /** cfHeaderKV: a filter header and the hash of its block. */
  datatype CfHeader = CfHeader(blockHash: Hash, filterHeader: Hash)

  /** The zero value of an entry that was not filled in yet. */
  const ZERO_HASH := Hash(0)
  const ZERO_ENTRY := CfHeader(ZERO_HASH, ZERO_HASH)

  /** Filter headers of blocks.  A block fixes its header; the database has it while the
      block is on the best chain. */
  type Headers = map<Hash, Hash>

  /** What the database returns are the headers of the blocks. */
  ghost predicate Agrees(db: Headers, headers: Headers) {
    forall h :: h in db ==> h in headers && db[h] == headers[h]
  }

  /** For each block hash, the interval hashes of its branch up to itself.  A block
      hash fixes the blocks below it, so this is a function of the hash. */
  type Ancestry = map<Hash, seq<Hash>>

  /** A list of interval hashes of one branch. */
  ghost predicate OnOneBranch(ancestry: Ancestry, hashes: seq<Hash>) {
    forall i :: 0 <= i < |hashes| ==>
      hashes[i] != ZERO_HASH && hashes[i] in ancestry && ancestry[hashes[i]] == hashes[..i + 1]
  }

  /** Entries that lie on one branch, each with the header of its block. */
  ghost predicate Consistent(ancestry: Ancestry, headers: Headers, entries: seq<CfHeader>) {
    && OnOneBranch(ancestry, BlockHashes(entries))
    && forall i :: 0 <= i < |entries| ==>
         entries[i].blockHash in headers && entries[i].filterHeader == headers[entries[i].blockHash]
  }

  function BlockHashes(entries: seq<CfHeader>): (hashes: seq<Hash>)
    ensures |hashes| == |entries|
    ensures forall i :: 0 <= i < |entries| ==> hashes[i] == entries[i].blockHash
  {
    seq(|entries|, i requires 0 <= i < |entries| => entries[i].blockHash)
  }

  lemma NoZeroHash(ancestry: Ancestry, hashes: seq<Hash>)
    requires OnOneBranch(ancestry, hashes)
    ensures forall i :: 0 <= i < |hashes| ==> hashes[i] != ZERO_HASH
  {}

  /** Two branches that share an interval block share all interval blocks below it. */
  lemma SharedBelow(ancestry: Ancestry, a: seq<Hash>, b: seq<Hash>, i: nat)
    requires OnOneBranch(ancestry, a) && OnOneBranch(ancestry, b) && i < |a| && i < |b| && a[i] == b[i]
    ensures a[..i + 1] == b[..i + 1]
  {}

  /** More blocks and more headers leave a cache consistent, and a branch a branch. */
  lemma ConsistentGrows(ancestry: Ancestry, ancestry': Ancestry, headers: Headers, headers': Headers, entries: seq<CfHeader>)
    requires Consistent(ancestry, headers, entries) && Agrees(headers, headers')
    requires forall h :: h in ancestry ==> h in ancestry' && ancestry'[h] == ancestry[h]
    ensures Consistent(ancestry', headers', entries)
  {}

  /** The ancestry of an index that grows keeps what it had. */
  lemma AncestryGrows(index: map<Hash, BlockNode>, index': map<Hash, BlockNode>, interval: nat)
    requires interval > 0 && forall h :: h in index ==> h in index' && index'[h] == index[h]
    ensures forall h :: h in AncestryOf(index, interval) ==>
              h in AncestryOf(index', interval) && AncestryOf(index', interval)[h] == AncestryOf(index, interval)[h]
  {}

  /** How many of the hashes can be looked up before the first one that cannot. */
  function Found(db: Headers, hashes: seq<Hash>): (k: nat)
    ensures k <= |hashes|
    ensures k < |hashes| ==> hashes[k] !in db
    ensures forall i :: 0 <= i < k ==> hashes[i] in db
  {
    if hashes == [] || hashes[0] !in db then 0 else 1 + Found(db, hashes[1..])
  }

  /** The ancestry of the blocks of an index. */
  ghost function AncestryOf(index: map<Hash, BlockNode>, interval: nat): Ancestry
    requires interval > 0
  {
    map h | h in index && index[h].Wf() :: IntervalHashes(index[h], interval)
  }

  /** The interval hashes of an indexed block are those of one branch. */
  lemma IntervalHashesOnOneBranch(index: map<Hash, BlockNode>, n: BlockNode, interval: nat)
    requires n.Wf() && interval > 0 && ZERO_HASH !in index
    requires forall h :: 0 <= h < |Path(n)| ==> Path(n)[h].block.hash in index && index[Path(n)[h].block.hash] == Path(n)[h]
    ensures OnOneBranch(AncestryOf(index, interval), IntervalHashes(n, interval))
  {
    hide BlockNode.Wf, Path, IntervalHashes;
    var hashes := IntervalHashes(n, interval);
    forall i | 0 <= i < |hashes|
      ensures hashes[i] != ZERO_HASH && hashes[i] in AncestryOf(index, interval)
      ensures AncestryOf(index, interval)[hashes[i]] == hashes[..i + 1]
    {
      PathShape(n);
      IntervalAt(n, interval, i);
      var h := (i + 1) * interval;
      IntervalPrefix(n, interval, h);
      IntervalAt(Path(n)[h], interval, 0);
      MultipleDiv(i + 1, interval);
    }
  }

  lemma MultipleDiv(k: nat, d: nat)
    requires d > 0
    ensures (k * d) / d == k
  {
    DivUnique(k * d, d, k, 0);
  }

  /** Answers are the headers of consecutive blocks, from a place on. */
  ghost predicate Answered(headers: Headers, hashes: seq<Hash>, from: nat, answers: seq<Hash>) {
    && from + |answers| <= |hashes|
    && forall i :: from <= i < from + |answers| ==> hashes[i] in headers && answers[i - from] == headers[hashes[i]]
  }

  lemma NoAnswers(headers: Headers, hashes: seq<Hash>, from: nat)
    requires from <= |hashes|
    ensures Answered(headers, hashes, from, [])
  {}

  lemma OneMoreAnswer(headers: Headers, hashes: seq<Hash>, from: nat, answers: seq<Hash>)
    requires Answered(headers, hashes, from, answers) && from + |answers| < |hashes| && hashes[from + |answers|] in headers
    ensures Answered(headers, hashes, from, answers + [headers[hashes[from + |answers|]]])
  {}

  lemma AnswersAreKnown(headers: Headers, db: Headers, hashes: seq<Hash>, from: nat, answers: seq<Hash>)
    requires Answered(db, hashes, from, answers) && Agrees(db, headers)
    ensures Answered(headers, hashes, from, answers)
    ensures forall i :: from <= i < from + |answers| ==> hashes[i] in db && hashes[i] in headers && db[hashes[i]] == headers[hashes[i]]
  {}

  lemma JoinAnswers(headers: Headers, hashes: seq<Hash>, a: seq<Hash>, b: seq<Hash>)
    requires Answered(headers, hashes, 0, a) && Answered(headers, hashes, |a|, b) && |a| + |b| == |hashes|
    ensures Answers(headers, hashes, a + b)
  {}

  /** A message holds the header of every block, in order. */
  ghost predicate Answers(headers: Headers, hashes: seq<Hash>, msg: seq<Hash>) {
    && |msg| == |hashes|
    && forall i :: 0 <= i < |hashes| ==> hashes[i] in headers && msg[i] == headers[hashes[i]]
  }

  ghost predicate AllIn(db: Headers, hashes: seq<Hash>) {
    forall i :: 0 <= i < |hashes| ==> hashes[i] in db
  }

  class CheckpointCache {
    /** The cached slice: the first len slots of its backing array. */
    var backing: array<CfHeader>
    var len: nat

    ghost predicate Valid()
      reads this
    {
      len <= backing.Length
    }

    ghost function Entries(): seq<CfHeader>
      requires Valid()
      reads this, backing
    {
      backing[..len]
    }

    constructor ()
      ensures Valid() && Entries() == [] && fresh(backing) && backing.Length == 0
    {
      backing, len := new CfHeader[0], 0;
    }

    /** The cache extended by zero entries, in place if the backing array has room. */
    method Grow(needed: nat, spare: nat) returns (buf: array<CfHeader>)
      requires Valid() && needed > len
      modifies backing
      ensures buf == backing <==> needed <= backing.Length
      ensures buf != backing ==> fresh(buf)
      ensures buf.Length == if needed <= backing.Length then backing.Length else needed + spare
      ensures buf[..len] == old(Entries()) == Entries()
      ensures forall i :: len <= i < needed ==> buf[i] == ZERO_ENTRY
    {
      if needed <= backing.Length {
        buf := backing;
        forall i | len <= i < needed {
          buf[i] := ZERO_ENTRY;
        }
      } else {
        buf := new CfHeader[needed + spare](_ => ZERO_ENTRY);
        forall i | 0 <= i < len {
          buf[i] := backing[i];
        }
      }
    }

    /** The number of requested hashes up to the last one that the cache holds at the
        same place. */
    method FindFork(buf: array<CfHeader>, blockHashes: seq<Hash>) returns (forkIdx: nat)
      requires |blockHashes| <= buf.Length
      ensures forkIdx <= |blockHashes|
      ensures forkIdx > 0 ==> buf[forkIdx - 1].blockHash == blockHashes[forkIdx - 1]
      ensures forall i :: forkIdx <= i < |blockHashes| ==> buf[i].blockHash != blockHashes[i]
    {
      forkIdx := |blockHashes|;
      while forkIdx > 0
        invariant forkIdx <= |blockHashes|
        invariant forall i :: forkIdx <= i < |blockHashes| ==> buf[i].blockHash != blockHashes[i]
      {
        if buf[forkIdx - 1].blockHash == blockHashes[forkIdx - 1] {
          break;
        }
        forkIdx := forkIdx - 1;
      }
    }

    lemma FoundFrom(db: Headers, hashes: seq<Hash>, i: nat)
      requires i <= |hashes|
      ensures Found(db, hashes[i..]) ==
              if i == |hashes| || hashes[i] !in db then 0 else 1 + Found(db, hashes[i + 1..])
    {
      if i < |hashes| {
        assert hashes[i..][0] == hashes[i] && hashes[i..][1..] == hashes[i + 1..];
      }
    }

    /** Looks up the headers of the blocks from an index on, and caches them in place
        when the cache is being updated; stops at the first that is missing. */
    method FillFrom(buf: array<CfHeader>, blockHashes: seq<Hash>, forkIdx: nat, db: Headers, update: bool)
      returns (found: seq<Hash>, complete: bool)
      requires forkIdx <= |blockHashes| <= buf.Length
      modifies buf
      ensures |found| == Found(db, blockHashes[forkIdx..])
      ensures complete <==> |found| == |blockHashes| - forkIdx
      ensures Answered(db, blockHashes, forkIdx, found)
      ensures forall i :: 0 <= i < buf.Length ==>
                buf[i] == if update && forkIdx <= i < forkIdx + |found| then CfHeader(blockHashes[i], db[blockHashes[i]])
                          else old(buf[i])
    {
      hide Found, Answered;
      NoAnswers(db, blockHashes, forkIdx);
      FoundFrom(db, blockHashes, |blockHashes|);
      found := [];
      var i := 0;
      while i < |blockHashes| - forkIdx
        invariant 0 <= i == |found| <= |blockHashes| - forkIdx
        invariant Found(db, blockHashes[forkIdx..]) == i + Found(db, blockHashes[forkIdx + i..])
        invariant Answered(db, blockHashes, forkIdx, found)
        invariant forall j :: 0 <= j < buf.Length ==>
                    buf[j] == if update && forkIdx <= j < forkIdx + i then CfHeader(blockHashes[j], db[blockHashes[j]])
                              else old(buf[j])
      {
        var hash := blockHashes[forkIdx + i];
        FoundFrom(db, blockHashes, forkIdx + i);
        if hash !in db {
          return found, false;
        }
        OneMoreAnswer(db, blockHashes, forkIdx, found);
        found := found + [db[hash]];
        if update {
          buf[forkIdx + i] := CfHeader(hash, db[hash]);
        }
        i := i + 1;
      }
      complete := true;
    }

    /** Answers a request for the checkpoints of a branch, given by its interval hashes.
        A message is sent exactly if the database has the headers above the part that
        the cache shares, whether or not it still has those below, and it holds the
        headers of all blocks in order.  The cache stays consistent, unless the call
        fails after it overwrote a part of the cached branch in place. */
    method OnGetCFCheckpt(blockHashes: seq<Hash>, db: Headers, dbError: bool, spare: nat, ghost headers: Headers, ghost ancestry: Ancestry)
      returns (msg: Option<seq<Hash>>)
      requires Valid() && Consistent(ancestry, headers, Entries()) && OnOneBranch(ancestry, blockHashes) && Agrees(db, headers)
      modifies this, backing
      ensures Valid()
      ensures msg.Some? <==> !dbError && AllIn(db, blockHashes[Shared(old(BlockHashes(Entries())), blockHashes)..])
      ensures msg.Some? ==> Answers(headers, blockHashes, msg.value)
      ensures msg.Some? ==> Consistent(ancestry, headers, Entries())
      ensures msg.Some? ==> BlockHashes(Entries()) == if old(len) < |blockHashes| then blockHashes else old(BlockHashes(Entries()))
      ensures msg.Some? ==>
                backing.Length == if |blockHashes| <= old(backing.Length) then old(backing.Length) else |blockHashes| + spare
      ensures backing == old(backing) || fresh(backing)
      ensures msg.None? ==> len == old(len) && backing == old(backing)
      ensures msg.None? ==>
                (Consistent(ancestry, headers, Entries()) <==>
                 dbError || !(old(len) < |blockHashes| <= old(backing.Length)) || !Overwrites(db, old(BlockHashes(Entries())), blockHashes))
    {
      hide OnOneBranch, Consistent, Overwrites, Shared, Found, BlockHashes, Answered, Agrees;
      ghost var old0 := Entries();
      var buf, updateCache, forkIdx, cached := Prepare(blockHashes, spare, headers, ancestry);
      if dbError {
        return None;
      }
      var found, complete := FillFrom(buf, blockHashes, forkIdx, db, updateCache);
      if !complete {
        assert blockHashes[forkIdx..][|found|] !in db;
        if buf == backing && updateCache {
          PartialUpdate(ancestry, headers, db, old0, blockHashes, forkIdx, Entries());
        } else {
          assert Entries() == old0;
        }
        return None;
      }
      AnswersAreKnown(headers, db, blockHashes, forkIdx, found);
      if updateCache {
        backing, len := buf, |blockHashes|;
        FullUpdate(ancestry, headers, old0, blockHashes, forkIdx, Entries());
      } else {
        assert Entries() == old0;
      }
      JoinAnswers(headers, blockHashes, cached, found);
      msg := Some(cached + found);
    }

    /** The slice to answer from, grown if the cache must be updated, and what the cache
        already knows of the answer. */
    method Prepare(blockHashes: seq<Hash>, spare: nat, ghost headers: Headers, ghost ancestry: Ancestry)
      returns (buf: array<CfHeader>, updateCache: bool, forkIdx: nat, cached: seq<Hash>)
      requires Valid() && Consistent(ancestry, headers, Entries()) && OnOneBranch(ancestry, blockHashes)
      modifies backing
      ensures Valid() && len <= buf.Length && Entries() == old(Entries()) == buf[..len] && |blockHashes| <= buf.Length
      ensures updateCache <==> |blockHashes| > len
      ensures buf.Length == if |blockHashes| <= backing.Length then backing.Length else |blockHashes| + spare
      ensures buf == backing <==> |blockHashes| <= backing.Length
      ensures buf != backing ==> fresh(buf)
      ensures forkIdx <= |blockHashes| && forkIdx <= len && forkIdx == Shared(BlockHashes(Entries()), blockHashes)
      ensures |cached| == forkIdx && Answered(headers, blockHashes, 0, cached)
    {
      hide OnOneBranch, Consistent, Shared, Found, BlockHashes;
      NoZeroHash(ancestry, blockHashes);
      buf, updateCache := backing, false;
      if |blockHashes| > len {
        updateCache := true;
        buf := Grow(|blockHashes|, spare);
      }
      forkIdx := FindFork(buf, blockHashes);
      assert forall i :: 0 <= i < len ==> buf[i] == Entries()[i] by { assert buf[..len] == Entries(); }
      ForkIsShared(BlockHashes(Entries()), blockHashes, forkIdx);
      CachedPart(ancestry, headers, Entries(), blockHashes, forkIdx);
      cached := [];
      for i := 0 to forkIdx
        invariant |cached| == i && forall j :: 0 <= j < i ==> cached[j] == headers[blockHashes[j]]
      {
        cached := cached + [buf[i].filterHeader];
      }
    }
  }

  /** "A message is sent exactly if the database has the headers of all blocks" fails
      for a request when the database has those above the shared part and has lost one
      below it, and only then. */
  lemma SentIffInDatabase(db: Headers, cached: seq<Hash>, requested: seq<Hash>)
    ensures var fork := Shared(cached, requested);
            (AllIn(db, requested[fork..]) <==> AllIn(db, requested)) <==>
            AllIn(db, requested[..fork]) || !AllIn(db, requested[fork..])
  {
    var fork := Shared(cached, requested);
    assert requested == requested[..fork] + requested[fork..];
    assert AllIn(db, requested) <==> AllIn(db, requested[..fork]) && AllIn(db, requested[fork..]) by {
      if AllIn(db, requested[..fork]) && AllIn(db, requested[fork..]) {
        forall i | 0 <= i < |requested| ensures requested[i] in db {
          if i < fork {
            assert requested[..fork][i] in db;
          } else {
            assert requested[fork..][i - fork] in db;
          }
        }
      }
    }
  }

  /** A request that shares everything with the cache needs nothing from the database. */
  lemma NothingToLookUp(db: Headers, cached: seq<Hash>, requested: seq<Hash>)
    requires requested != [] && requested <= cached
    ensures Shared(cached, requested) == |requested| && AllIn(db, requested[Shared(cached, requested)..])
    ensures requested[0] !in db ==> !AllIn(db, requested)
  {
    ForkIsShared(cached, requested, |requested|);
  }

  /** So a request for a cached branch is answered when a reorganization has taken its
      headers out of the database. */
  method AnswersAfterReorganization(cache: CheckpointCache, blockHashes: seq<Hash>, db: Headers, spare: nat, ghost headers: Headers, ghost ancestry: Ancestry)
    returns (msg: Option<seq<Hash>>)
    requires cache.Valid() && Consistent(ancestry, headers, cache.Entries()) && OnOneBranch(ancestry, blockHashes) && Agrees(db, headers)
    requires blockHashes != [] && blockHashes <= BlockHashes(cache.Entries())
    requires forall h :: h in blockHashes ==> h !in db
    modifies cache, cache.backing
    ensures msg.Some? && Answers(headers, blockHashes, msg.value) && !AllIn(db, blockHashes)
  {
    hide Consistent, OnOneBranch, Agrees, BlockHashes, Shared;
    NothingToLookUp(db, BlockHashes(cache.Entries()), blockHashes);
    assert blockHashes[0] in blockHashes;
    msg := cache.OnGetCFCheckpt(blockHashes, db, false, spare, headers, ancestry);
  }

  /** A case: two blocks are cached, and the database is empty afterwards. */
  method AnswersWithEmptyDatabase() returns (msg: Option<seq<Hash>>)
    ensures msg == Some([Hash(11), Hash(12)])
  {
    var a, b, db := Hash(1), Hash(2), map[Hash(1) := Hash(11), Hash(2) := Hash(12)];
    ghost var ancestry := map[a := [a], b := [a, b]];
    BranchOfTwo(ancestry, a, b);
    var cache := new CheckpointCache();
    msg := cache.OnGetCFCheckpt([a, b], db, false, 0, db, ancestry);
    assert msg.Some? by { assert AllIn(db, [a, b]); }
    msg := AnswersAfterReorganization(cache, [a, b], map[], 0, db, ancestry);
    assert msg.value == [msg.value[0], msg.value[1]];
  }

  lemma BranchOfTwo(ancestry: Ancestry, a: Hash, b: Hash)
    requires a in ancestry && b in ancestry && ancestry[a] == [a] && ancestry[b] == [a, b] && a != ZERO_HASH && b != ZERO_HASH
    ensures OnOneBranch(ancestry, [a, b])
  {
    assert [a, b][..1] == [a] && [a, b][..2] == [a, b];
  }

  /** A failed request that leaves the cache with blocks of two branches: the cache holds
      another branch, there is room for the requested one, and of that the database has
      the first header and not the second. */
  method LeavesMixture(cache: CheckpointCache, blockHashes: seq<Hash>, db: Headers, spare: nat, ghost headers: Headers, ghost ancestry: Ancestry)
    returns (msg: Option<seq<Hash>>)
    requires cache.Valid() && Consistent(ancestry, headers, cache.Entries()) && OnOneBranch(ancestry, blockHashes) && Agrees(db, headers)
    requires 2 <= cache.len < |blockHashes| <= cache.backing.Length
    requires forall i :: 0 <= i < cache.len ==> BlockHashes(cache.Entries())[i] != blockHashes[i]
    requires blockHashes[0] in db && blockHashes[1] !in db
    modifies cache, cache.backing
    ensures msg == None && cache.Valid() && !Consistent(ancestry, headers, cache.Entries())
  {
    hide Consistent, OnOneBranch, Agrees, BlockHashes, Shared, Found;
    ghost var cached := BlockHashes(cache.Entries());
    ForkIsShared(cached, blockHashes, 0);
    assert blockHashes[0..] == blockHashes;
    FoundOne(db, blockHashes);
    msg := cache.OnGetCFCheckpt(blockHashes, db, false, spare, headers, ancestry);
  }

  lemma FoundOne(db: Headers, hashes: seq<Hash>)
    requires |hashes| >= 2 && hashes[0] in db && hashes[1] !in db
    ensures Found(db, hashes) == 1 && !AllIn(db, hashes)
  {
    assert hashes[1..][0] == hashes[1];
  }

  /** A case: two blocks are cached, and three on another branch are asked for. */
  method MixtureOfTwoBranches() returns (cache: CheckpointCache, ghost headers: Headers, ghost ancestry: Ancestry)
    ensures cache.Valid() && !Consistent(ancestry, headers, cache.Entries())
  {
    var a, b, c, d, e := Hash(1), Hash(2), Hash(3), Hash(4), Hash(5);
    var db := map[a := Hash(11), b := Hash(12)];
    headers := map[a := Hash(11), b := Hash(12), c := Hash(13)];
    ancestry := map[a := [a], b := [a, b], c := [c], d := [c, d], e := [c, d, e]];
    BranchOfTwo(ancestry, a, b);
    assert [c, d, e][..1] == [c] && [c, d, e][..2] == [c, d] && [c, d, e][..3] == [c, d, e];
    cache := new CheckpointCache();
    var msg := cache.OnGetCFCheckpt([a, b], db, false, 1, headers, ancestry);
    assert msg.Some? && BlockHashes(cache.Entries()) == [a, b] by { assert AllIn(db, [a, b]); }
    assert |cache.Entries()| == 2 == cache.len;
    msg := LeavesMixture(cache, [c, d, e], map[c := Hash(13)], 0, headers, ancestry);
  }

  /** A request: the interval hashes that it asks for, what the database has then or
      whether it fails, and how far the cache is extended beyond what is needed. */
  datatype Request = Request(blockHashes: seq<Hash>, db: Headers, dbError: bool, spare: nat)

  /** Any history of requests on any branches, with any changes of the database between
      them: every message holds the headers of its blocks.  Requests that fail do no harm,
      up to the first one that leaves the cache with a mixture of branches. */
  method Serve(cache: CheckpointCache, requests: seq<Request>, ghost headers: Headers, ghost ancestry: Ancestry)
    returns (msgs: seq<Option<seq<Hash>>>)
    requires cache.Valid() && Consistent(ancestry, headers, cache.Entries())
    requires forall r :: r in requests ==> OnOneBranch(ancestry, r.blockHashes) && Agrees(r.db, headers)
    modifies cache, cache.backing
    ensures cache.Valid() && |msgs| <= |requests|
    ensures forall k :: 0 <= k < |msgs| && msgs[k].Some? ==> Answers(headers, requests[k].blockHashes, msgs[k].value)
    ensures forall k :: 0 <= k < |msgs| && msgs[k].None? ==> requests[k].dbError || !AllIn(requests[k].db, requests[k].blockHashes)
    ensures |msgs| < |requests| ==> msgs != [] && msgs[|msgs| - 1].None? && !Consistent(ancestry, headers, cache.Entries())
  {
    hide Consistent, OnOneBranch, Answers, Agrees, Shared, BlockHashes, Overwrites;
    msgs := [];
    while |msgs| < |requests|
      invariant |msgs| <= |requests| && cache.Valid() && Consistent(ancestry, headers, cache.Entries())
      invariant cache.backing == old(cache.backing) || fresh(cache.backing)
      invariant forall k :: 0 <= k < |msgs| && msgs[k].Some? ==> Answers(headers, requests[k].blockHashes, msgs[k].value)
      invariant forall k :: 0 <= k < |msgs| && msgs[k].None? ==> requests[k].dbError || !AllIn(requests[k].db, requests[k].blockHashes)
      decreases |requests| - |msgs|
    {
      var r := requests[|msgs|];
      assert r in requests;
      var spoils :=
        cache.len < |r.blockHashes| <= cache.backing.Length && Overwrites(r.db, BlockHashes(cache.backing[..cache.len]), r.blockHashes);
      AllAbove(r.db, BlockHashes(cache.Entries()), r.blockHashes);
      var msg := cache.OnGetCFCheckpt(r.blockHashes, r.db, r.dbError, r.spare, headers, ancestry);
      msgs := msgs + [msg];
      if msg.None? && !r.dbError && spoils {
        return;
      }
    }
  }

  lemma AllAbove(db: Headers, cached: seq<Hash>, requested: seq<Hash>)
    ensures AllIn(db, requested) ==> AllIn(db, requested[Shared(cached, requested)..])
  {}

  /** How far two lists of interval hashes agree: up to the last equal entry. */
  function Shared(a: seq<Hash>, b: seq<Hash>): (k: nat)
    ensures k <= |a| && k <= |b|
    ensures k > 0 ==> a[k - 1] == b[k - 1]
    ensures forall i :: k <= i < |a| && i < |b| ==> a[i] != b[i]
  {
    SharedUpTo(a, b, if |a| < |b| then |a| else |b|)
  }

  function SharedUpTo(a: seq<Hash>, b: seq<Hash>, n: nat): (k: nat)
    requires n <= |a| && n <= |b|
    ensures k <= n
    ensures k > 0 ==> a[k - 1] == b[k - 1]
    ensures forall i :: k <= i < n ==> a[i] != b[i]
  {
    if n == 0 || a[n - 1] == b[n - 1] then n else SharedUpTo(a, b, n - 1)
  }

  /** Some header above the shared part can be looked up, and then one is missing
      before the end of the cached list: a failed update leaves a mixture. */
  predicate Overwrites(db: Headers, cached: seq<Hash>, requested: seq<Hash>) {
    var fork := Shared(cached, requested);
    var found := Found(db, requested[fork..]);
    found > 0 && fork + found < |cached|
  }

  lemma ForkIsShared(cached: seq<Hash>, requested: seq<Hash>, forkIdx: nat)
    requires forkIdx <= |cached| && forkIdx <= |requested|
    requires forkIdx > 0 ==> cached[forkIdx - 1] == requested[forkIdx - 1]
    requires forall i :: forkIdx <= i < |cached| && i < |requested| ==> cached[i] != requested[i]
    ensures forkIdx == Shared(cached, requested)
  {}

  /** The part of the cache below the last matching entry is that of the request. */
  lemma CachedPart(ancestry: Ancestry, headers: Headers, entries: seq<CfHeader>, requested: seq<Hash>, fork: nat)
    requires Consistent(ancestry, headers, entries) && OnOneBranch(ancestry, requested)
    requires fork == Shared(BlockHashes(entries), requested)
    ensures forall i :: 0 <= i < fork ==>
              entries[i].blockHash == requested[i] && requested[i] in headers && entries[i].filterHeader == headers[requested[i]]
  {
    if fork > 0 {
      var cached := BlockHashes(entries);
      SharedBelow(ancestry, cached, requested, fork - 1);
      assert forall i :: 0 <= i < fork ==> cached[i] == cached[..fork][i] && requested[i] == requested[..fork][i];
    }
  }

  lemma FullUpdate(ancestry: Ancestry, headers: Headers, old0: seq<CfHeader>, requested: seq<Hash>, fork: nat, entries: seq<CfHeader>)
    requires Consistent(ancestry, headers, old0) && OnOneBranch(ancestry, requested)
    requires fork == Shared(BlockHashes(old0), requested) && |entries| == |requested|
    requires forall i :: 0 <= i < fork ==> entries[i] == old0[i]
    requires forall i :: fork <= i < |requested| ==> requested[i] in headers && entries[i] == CfHeader(requested[i], headers[requested[i]])
    ensures BlockHashes(entries) == requested && Consistent(ancestry, headers, entries)
  {
    CachedPart(ancestry, headers, old0, requested, fork);
    assert BlockHashes(entries) == requested;
  }

  lemma PartialUpdate(ancestry: Ancestry, headers: Headers, db: Headers, old0: seq<CfHeader>, requested: seq<Hash>, fork: nat, entries: seq<CfHeader>)
    requires Consistent(ancestry, headers, old0) && OnOneBranch(ancestry, requested) && Agrees(db, headers)
    requires fork == Shared(BlockHashes(old0), requested) && |entries| == |old0| < |requested|
    requires var found := Found(db, requested[fork..]);
             forall i :: 0 <= i < |entries| ==>
               entries[i] == if fork <= i < fork + found then CfHeader(requested[i], db[requested[i]]) else old0[i]
    ensures Consistent(ancestry, headers, entries) <==> !Overwrites(db, BlockHashes(old0), requested)
  {
    hide Found, Shared, OnOneBranch, Consistent, BlockHashes, Agrees;
    var found := Found(db, requested[fork..]);
    if found == 0 {
      assert entries == old0;
    } else if fork + found >= |old0| {
      WrittenThrough(ancestry, headers, db, old0, requested, fork, found, entries);
    } else {
      LeftMixed(ancestry, headers, db, old0, requested, fork, found, entries);
    }
  }

  /** The update got to the end of the cached branch: the cache is a part of the
      requested one. */
  lemma WrittenThrough(ancestry: Ancestry, headers: Headers, db: Headers, old0: seq<CfHeader>, requested: seq<Hash>, fork: nat, found: nat, entries: seq<CfHeader>)
    requires Consistent(ancestry, headers, old0) && OnOneBranch(ancestry, requested) && Agrees(db, headers)
    requires fork == Shared(BlockHashes(old0), requested) && |entries| == |old0| < |requested| && fork + found >= |old0|
    requires found == Found(db, requested[fork..])
    requires forall i :: 0 <= i < |entries| ==>
               entries[i] == if fork <= i < fork + found then CfHeader(requested[i], db[requested[i]]) else old0[i]
    ensures Consistent(ancestry, headers, entries)
  {
    hide Found, Shared;
    CachedPart(ancestry, headers, old0, requested, fork);
    PrefixOnBranch(ancestry, requested, |old0|);
    assert BlockHashes(entries) == requested[..|old0|];
    forall i | fork <= i < |entries| ensures entries[i].blockHash in headers && entries[i].filterHeader == headers[entries[i].blockHash] {
      assert requested[fork..][i - fork] in db;
    }
  }

  /** The update stopped before that: the top is left from the old branch. */
  lemma LeftMixed(ancestry: Ancestry, headers: Headers, db: Headers, old0: seq<CfHeader>, requested: seq<Hash>, fork: nat, found: nat, entries: seq<CfHeader>)
    requires Consistent(ancestry, headers, old0)
    requires fork == Shared(BlockHashes(old0), requested) && |entries| == |old0| < |requested| && 0 < found < |old0| - fork
    requires found == Found(db, requested[fork..])
    requires forall i :: 0 <= i < |entries| ==>
               entries[i] == if fork <= i < fork + found then CfHeader(requested[i], db[requested[i]]) else old0[i]
    ensures !Consistent(ancestry, headers, entries)
  {
    hide Found, Shared, OnOneBranch;
    assert requested[fork..][0] in db;
    Mixture(ancestry, BlockHashes(old0), BlockHashes(entries), fork);
  }

  lemma PrefixOnBranch(ancestry: Ancestry, hashes: seq<Hash>, n: nat)
    requires OnOneBranch(ancestry, hashes) && n <= |hashes|
    ensures OnOneBranch(ancestry, hashes[..n])
  {
    forall i | 0 <= i < n ensures ancestry[hashes[i]] == hashes[..n][..i + 1] {
      assert hashes[..n][..i + 1] == hashes[..i + 1];
    }
  }

  /** A list with the top of one branch and an entry of another one below it. */
  lemma Mixture(ancestry: Ancestry, before: seq<Hash>, after: seq<Hash>, i: nat)
    requires OnOneBranch(ancestry, before) && |after| == |before| && i < |after| - 1
    requires after[|after| - 1] == before[|after| - 1] && after[i] != before[i]
    ensures !OnOneBranch(ancestry, after)
  {
    var last := |after| - 1;
    assert before[..last + 1][i] != after[..last + 1][i];
  }
}

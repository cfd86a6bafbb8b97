// The pool of orphan blocks and its index by parent hash (chain.go).

module Orphans {
  import opened Wrappers
  import opened BlockTree

  datatype Orphan = Orphan(block: Block, expiration: int)

  const MAX_ORPHAN_BLOCKS := 100

  /** A list without repetitions of pooled orphans with the same parent hash. */
  ghost predicate Listed(orphans: map<Hash, Orphan>, p: Hash, list: seq<Orphan>) {
    && (forall o :: o in list ==> o.block.prev == p && o.block.hash in orphans && orphans[o.block.hash] == o)
    && Distinct(list)
  }

  ghost predicate Distinct(list: seq<Orphan>) {
    forall i, j :: 0 <= i < j < |list| ==> list[i] != list[j]
  }

  /** The two indexes describe the same set: every orphan is in the pool under its
      hash and exactly once in the list of its parent hash, and there is nothing else
      in the lists and no empty list. */
  ghost predicate Agree(orphans: map<Hash, Orphan>, prevOrphans: map<Hash, seq<Orphan>>) {
    && (forall h :: h in orphans ==> orphans[h].block.hash == h)
    && (forall h :: h in orphans ==> orphans[h].block.prev in prevOrphans && orphans[h] in prevOrphans[orphans[h].block.prev])
    && (forall p :: p in prevOrphans ==> prevOrphans[p] != [] && Listed(orphans, p, prevOrphans[p]))
  }

  /** The elements that do not have a hash, in order. */
  function Without(list: seq<Orphan>, hash: Hash): seq<Orphan> {
    if list == [] then []
    else if list[0].block.hash == hash then Without(list[1..], hash)
    else [list[0]] + Without(list[1..], hash)
  }

  lemma {:induction false} WithoutIn(list: seq<Orphan>, hash: Hash)
    ensures forall o :: o in Without(list, hash) <==> o in list && o.block.hash != hash
  {
    if list != [] {
      WithoutIn(list[1..], hash);
      assert forall o :: o in list <==> o == list[0] || o in list[1..];
    }
  }

  lemma {:induction false} WithoutDistinct(list: seq<Orphan>, hash: Hash)
    requires Distinct(list)
    ensures Distinct(Without(list, hash))
  {
    if list != [] {
      WithoutDistinct(list[1..], hash);
      WithoutIn(list[1..], hash);
    }
  }

  lemma {:induction false} WithoutAppend(list: seq<Orphan>, hash: Hash, i: nat)
    requires i < |list|
    ensures Without(list[..i + 1], hash) ==
            Without(list[..i], hash) + if list[i].block.hash == hash then [] else [list[i]]
  {
    if i == 0 {
      assert list[..1][1..] == [] && list[..0] == [];
    } else {
      WithoutAppend(list[1..], hash, i - 1);
      assert list[..i + 1][1..] == list[1..][..i] && list[..i][1..] == list[1..][..i - 1];
    }
  }

  /** The parent index after the removal of an orphan. */
  function Unlisted(prevOrphans: map<Hash, seq<Orphan>>, prev: Hash, hash: Hash): map<Hash, seq<Orphan>> {
    var list := Without(if prev in prevOrphans then prevOrphans[prev] else [], hash);
    if list == [] then prevOrphans - {prev} else prevOrphans[prev := list]
  }

  /** Removing an orphan by its hash, and from the list of its parent hash, keeps the
      indexes in agreement. */
  lemma RemoveAgrees(orphans: map<Hash, Orphan>, prevOrphans: map<Hash, seq<Orphan>>, prev: Hash, hash: Hash)
    requires Agree(orphans, prevOrphans)
    requires hash in orphans ==> orphans[hash].block.prev == prev
    ensures Agree(orphans - {hash}, Unlisted(prevOrphans, prev, hash))
  {
    hide Without;
    var after, listed := orphans - {hash}, Unlisted(prevOrphans, prev, hash);
    var list := if prev in prevOrphans then prevOrphans[prev] else [];
    WithoutIn(list, hash);
    WithoutDistinct(list, hash);
    forall h | h in after
      ensures after[h].block.prev in listed && after[h] in listed[after[h].block.prev]
    {
      if after[h].block.prev == prev {
        assert after[h] in Without(list, hash);
      }
    }
    forall p | p in listed ensures listed[p] != [] && Listed(after, p, listed[p]) {
      forall o: Orphan | o in listed[p] ensures o.block.hash in after && after[o.block.hash] == o && o.block.prev == p {
        assert p in prevOrphans && o in prevOrphans[p];
      }
    }
  }

  /** Adding an orphan under a new hash keeps the indexes in agreement. */
  lemma AddAgrees(orphans: map<Hash, Orphan>, prevOrphans: map<Hash, seq<Orphan>>, o: Orphan)
    requires Agree(orphans, prevOrphans) && o.block.hash !in orphans
    ensures var list := (if o.block.prev in prevOrphans then prevOrphans[o.block.prev] else []) + [o];
            Agree(orphans[o.block.hash := o], prevOrphans[o.block.prev := list])
  {
    var after := orphans[o.block.hash := o];
    var list := (if o.block.prev in prevOrphans then prevOrphans[o.block.prev] else []) + [o];
    var listed := prevOrphans[o.block.prev := list];
    forall p | p in listed ensures listed[p] != [] && Listed(after, p, listed[p]) {
      if p in prevOrphans { assert Listed(orphans, p, prevOrphans[p]); }
    }
  }

  class OrphanPool {
    var orphans: map<Hash, Orphan>
    var prevOrphans: map<Hash, seq<Orphan>>
    var oldestOrphan: Option<Orphan>

    ghost predicate Valid()
      reads this
    {
      Agree(orphans, prevOrphans)
    }

    constructor ()
      ensures Valid() && orphans == map[] && oldestOrphan == None
    {
      orphans, prevOrphans, oldestOrphan := map[], map[], None;
    }

    /** Takes the elements with a hash out of a list, shifting the rest down. */
    static method RemoveFrom(list: seq<Orphan>, hash: Hash) returns (r: seq<Orphan>)
      ensures r == Without(list, hash)
    {
      r := list;
      var i := 0;
      ghost var seen := 0;
      while i < |r|
        invariant 0 <= i <= |r| && 0 <= seen <= |list| && |r| - i == |list| - seen
        invariant r[..i] == Without(list[..seen], hash)
        invariant r[i..] == list[seen..]
        decreases |r| - i
      {
        WithoutAppend(list, hash, seen);
        assert r[i] == list[seen] && r[i..][1..] == r[i + 1..] && list[seen..][1..] == list[seen + 1..];
        if r[i].block.hash == hash {
          r := r[..i] + r[i + 1..];
        } else {
          i := i + 1;
        }
        seen := seen + 1;
      }
      assert list[..seen] == list && r[..i] == r;
    }

    /** Removes an orphan from both indexes, by the hash of its block. */
    method RemoveOrphanBlock(orphan: Orphan)
      requires Valid()
      requires orphan.block.hash in orphans ==> orphans[orphan.block.hash].block.prev == orphan.block.prev
      modifies this
      ensures Valid()
      ensures orphans == old(orphans) - {orphan.block.hash} && oldestOrphan == old(oldestOrphan)
    {
      var hash, prevHash := orphan.block.hash, orphan.block.prev;
      RemoveAgrees(orphans, prevOrphans, prevHash, hash);
      orphans := orphans - {hash};
      var list := RemoveFrom(if prevHash in prevOrphans then prevOrphans[prevHash] else [], hash);
      ghost var before := prevOrphans;
      prevOrphans := prevOrphans[prevHash := list];
      if |prevOrphans[prevHash]| == 0 {
        prevOrphans := prevOrphans - {prevHash};
      }
      assert prevOrphans == Unlisted(before, prevHash, hash);
    }

    /** Hashes determine blocks: what the pool and the oldest orphan hold agrees. */
    ghost predicate HashesUnique(block: Block)
      reads this
    {
      && (block.hash in orphans ==> orphans[block.hash].block == block)
      && (oldestOrphan.Some? ==>
            var b := oldestOrphan.value.block;
            && (b.hash in orphans ==> orphans[b.hash].block == b)
            && (b.hash == block.hash ==> b == block))
    }

    lemma KeyedByHash()
      requires Valid()
      ensures forall h :: h in orphans ==> orphans[h].block.hash == h
    {}

    /** Drops the expired orphans and keeps track of the oldest of the others. */
    method RemoveExpired(now: int)
      requires Valid()
      requires oldestOrphan.Some? ==> var b := oldestOrphan.value.block; b.hash in orphans ==> orphans[b.hash].block == b
      modifies this
      ensures Valid()
      ensures forall h :: h in orphans <==> h in old(orphans) && old(orphans)[h].expiration >= now
      ensures forall h :: h in orphans ==> orphans[h] == old(orphans)[h]
      ensures orphans != map[] ==> oldestOrphan.Some?
      ensures oldestOrphan == old(oldestOrphan) ||
                (oldestOrphan.Some? && var h := oldestOrphan.value.block.hash; h in orphans && orphans[h] == oldestOrphan.value)
      ensures oldestOrphan != old(oldestOrphan) && old(oldestOrphan).Some? ==>
                oldestOrphan.value.expiration < old(oldestOrphan).value.expiration
      ensures oldestOrphan.Some? ==> forall h :: h in orphans ==> oldestOrphan.value.expiration <= orphans[h].expiration
    {
      hide Agree;
      ghost var before := orphans;
      KeyedByHash();
      var todo := orphans.Keys;
      while todo != {}
        invariant Valid() && todo <= before.Keys
        invariant forall h :: h in orphans <==> h in before && (h in todo || before[h].expiration >= now)
        invariant forall h :: h in orphans ==> orphans[h] == before[h]
        invariant oldestOrphan == old(oldestOrphan) ||
                    (oldestOrphan.Some? && var h := oldestOrphan.value.block.hash; h in orphans && h !in todo && orphans[h] == oldestOrphan.value)
        invariant oldestOrphan != old(oldestOrphan) && old(oldestOrphan).Some? ==>
                    oldestOrphan.Some? && oldestOrphan.value.expiration < old(oldestOrphan).value.expiration
        invariant forall h :: h in orphans && h !in todo ==> oldestOrphan.Some? && oldestOrphan.value.expiration <= orphans[h].expiration
        decreases todo
      {
        var h :| h in todo;
        todo := todo - {h};
        var o := orphans[h];
        KeyedByHash();
        if now > o.expiration {
          RemoveOrphanBlock(o);
        } else if oldestOrphan.None? || o.expiration < oldestOrphan.value.expiration {
          oldestOrphan := Some(o);
        }
      }
    }

    /** The orphans that have not expired. */
    ghost function Survivors(now: int): map<Hash, Orphan>
      reads this
    {
      map h | h in orphans && orphans[h].expiration >= now :: orphans[h]
    }

    /** No pooled orphan is older than the remembered one, so it stays remembered. */
    ghost predicate KeepsOldest(now: int)
      reads this
    {
      && oldestOrphan.Some?
      && forall h :: h in Survivors(now) ==> oldestOrphan.value.expiration <= Survivors(now)[h].expiration
    }

    /** The orphan remembered as the oldest has left the pool and stays remembered. */
    ghost predicate StaleOldest(now: int)
      reads this
    {
      KeepsOldest(now) && oldestOrphan.value.block.hash !in Survivors(now)
    }

    /** The hash is that of the orphan taken for the oldest: the remembered one, or one
        that none of the pooled is older than. */
    ghost predicate TakenForOldest(now: int, h: Hash)
      reads this
    {
      if KeepsOldest(now) then h == oldestOrphan.value.block.hash
      else h in Survivors(now) && forall k :: k in Survivors(now) ==> Survivors(now)[h].expiration <= Survivors(now)[k].expiration
    }

    /** Adds an orphan that is not pooled yet, and drops the one taken for the oldest
        when the pool is full.  The pool is within its limit afterwards exactly if it
        was not full, or was at most full and the orphan to drop was still there. */
    method AddOrphanBlock(block: Block, now: int, lifetime: nat)
      requires Valid() && block.hash !in orphans && HashesUnique(block)
      modifies this
      ensures Valid()
      ensures |old(Survivors(now))| < MAX_ORPHAN_BLOCKS ==>
                orphans == old(Survivors(now))[block.hash := Orphan(block, now + lifetime)]
      ensures |old(Survivors(now))| >= MAX_ORPHAN_BLOCKS ==>
                && oldestOrphan == None
                && exists h :: old(TakenForOldest(now, h))
                     && orphans == (old(Survivors(now)) - {h})[block.hash := Orphan(block, now + lifetime)]
      ensures |old(Survivors(now))| < MAX_ORPHAN_BLOCKS && old(KeepsOldest(now)) ==> oldestOrphan == old(oldestOrphan)
      ensures |orphans| <= 100 <==>
                |old(Survivors(now))| < MAX_ORPHAN_BLOCKS
                || (|old(Survivors(now))| == MAX_ORPHAN_BLOCKS && !old(StaleOldest(now)))
    {
      hide Agree, Survivors, StaleOldest, TakenForOldest, KeepsOldest;
      MakeRoom(now);
      var o := Orphan(block, now + lifetime);
      AddAgrees(orphans, prevOrphans, o);
      assert orphans[block.hash := o].Keys == orphans.Keys + {block.hash};
      orphans := orphans[block.hash := o];
      prevOrphans := prevOrphans[block.prev := (if block.prev in prevOrphans then prevOrphans[block.prev] else []) + [o]];
    }

    /** How the pool outgrows its limit: it is full, the oldest orphan is taken out
        because its parent arrived, and two more orphans come in. */
    method OutgrowsLimit(oldest: Orphan, a: Block, b: Block, now: int, lifetime: nat)
      requires Valid() && |orphans| == 100 && oldestOrphan == Some(oldest)
      requires oldest.block.hash in orphans && orphans[oldest.block.hash] == oldest
      requires forall h :: h in orphans ==> now <= oldest.expiration <= orphans[h].expiration
      requires a.hash !in orphans && b.hash !in orphans && a.hash != b.hash && now <= oldest.expiration <= now + lifetime
      modifies this
      ensures Valid() && |orphans| == 101
    {
      hide Agree;
      ghost var rest := orphans - {oldest.block.hash};
      assert rest.Keys == orphans.Keys - {oldest.block.hash};
      RemoveOrphanBlock(oldest);
      assert orphans == rest;
      AddBehindStale(oldest, a, now, lifetime);
      AddBehindStale(oldest, b, now, lifetime);
    }

    lemma StaleIsTaken(oldest: Orphan, now: int)
      requires oldestOrphan == Some(oldest) && oldest.block.hash !in orphans
      requires forall h :: h in orphans ==> now <= oldest.expiration <= orphans[h].expiration
      ensures Survivors(now) == orphans && KeepsOldest(now)
      ensures forall h :: TakenForOldest(now, h) ==> h == oldest.block.hash
    {
      assert Survivors(now) == orphans;
    }

    /** A new orphan while the remembered oldest one is not pooled any more. */
    method AddBehindStale(oldest: Orphan, block: Block, now: int, lifetime: nat)
      requires Valid() && |orphans| <= MAX_ORPHAN_BLOCKS && oldestOrphan == Some(oldest) && oldest.block.hash !in orphans
      requires forall h :: h in orphans ==> now <= oldest.expiration <= orphans[h].expiration
      requires block.hash !in orphans && (block.hash == oldest.block.hash ==> block == oldest.block)
      modifies this
      ensures Valid() && orphans == old(orphans)[block.hash := Orphan(block, now + lifetime)]
      ensures |orphans| == old(|orphans|) + 1
      ensures old(|orphans|) < MAX_ORPHAN_BLOCKS ==> oldestOrphan == Some(oldest)
    {
      hide Agree, Survivors, StaleOldest, TakenForOldest, KeepsOldest;
      StaleIsTaken(oldest, now);
      ghost var before := orphans;
      AddOrphanBlock(block, now, lifetime);
      assert before - {oldest.block.hash} == before;
      assert orphans.Keys == before.Keys + {block.hash};
    }

    /** Drops the expired orphans, and the oldest one if the pool is still full. */
    method MakeRoom(now: int)
      requires Valid()
      requires oldestOrphan.Some? ==> var b := oldestOrphan.value.block; b.hash in orphans ==> orphans[b.hash].block == b
      modifies this
      ensures Valid() && orphans.Keys <= old(orphans.Keys)
      ensures |old(Survivors(now))| < MAX_ORPHAN_BLOCKS ==> orphans == old(Survivors(now))
      ensures |old(Survivors(now))| < MAX_ORPHAN_BLOCKS && old(KeepsOldest(now)) ==> oldestOrphan == old(oldestOrphan)
      ensures |old(Survivors(now))| >= MAX_ORPHAN_BLOCKS ==>
                oldestOrphan == None && exists h :: old(TakenForOldest(now, h)) && orphans == old(Survivors(now)) - {h}
      ensures |orphans| < MAX_ORPHAN_BLOCKS <==>
                |old(Survivors(now))| < MAX_ORPHAN_BLOCKS
                || (|old(Survivors(now))| == MAX_ORPHAN_BLOCKS && !old(StaleOldest(now)))
    {
      hide Agree;
      ghost var survivors, stale := Survivors(now), StaleOldest(now);
      RemoveExpired(now);
      assert orphans == survivors;
      assert old(KeepsOldest(now)) ==> oldestOrphan == old(oldestOrphan);
      if |orphans| + 1 > MAX_ORPHAN_BLOCKS {
        assert stale <==> oldestOrphan.value.block.hash !in orphans;
        ghost var h := oldestOrphan.value.block.hash;
        assert old(TakenForOldest(now, h));
        RemoveOrphanBlock(oldestOrphan.value);
        oldestOrphan := None;
        SizeAfterRemoval(survivors, orphans);
      }
    }

    lemma SizeAfterRemoval(before: map<Hash, Orphan>, after: map<Hash, Orphan>)
      requires after == before || exists h :: after == before - {h}
      ensures |after| == |before| || |after| == |before| - 1
      ensures |after| == |before| <==> after == before
    {
      if after != before {
        var h :| after == before - {h};
        assert after.Keys == before.Keys - {h};
      }
    }

    /** Follows parents through the pool.  The result is the hash itself, when it is
        not an orphan, or the furthest pooled ancestor: the block before it is unknown
        to the pool.  Blocks form chains, so their hashes can be ranked. */
    method GetOrphanRoot(hash: Hash, ghost rank: map<Hash, nat>) returns (root: Hash, ghost depth: nat)
      requires Valid()
      requires forall h :: h in orphans ==>
                 h in rank && orphans[h].block.prev in rank && rank[orphans[h].block.prev] < rank[h]
      ensures root == OrphanAncestor(hash, depth)
      ensures hash !in orphans ==> root == hash
      ensures hash in orphans ==> root in orphans && orphans[root].block.prev !in orphans
    {
      root := hash;
      var prevHash := hash;
      depth := 0;
      ghost var steps := 0;
      while prevHash in orphans
        invariant prevHash == OrphanAncestor(hash, steps)
        invariant root == OrphanAncestor(hash, depth)
        invariant if steps == 0 then prevHash == root == hash
                  else hash in orphans && root in orphans && orphans[root].block.prev == prevHash
        decreases if prevHash in rank then rank[prevHash] else 0, prevHash in orphans
      {
        root := prevHash;
        depth := steps;
        OrphanAncestorStep(hash, steps);
        prevHash := orphans[prevHash].block.prev;
        steps := steps + 1;
      }
    }

    /** The hash that is reached from another by following parents through the pool. */
    ghost function OrphanAncestor(hash: Hash, depth: nat): Hash
      reads this
      decreases depth
    {
      if depth == 0 || hash !in orphans then hash else OrphanAncestor(orphans[hash].block.prev, depth - 1)
    }

    lemma {:induction false} OrphanAncestorStep(hash: Hash, depth: nat)
      requires OrphanAncestor(hash, depth) in orphans
      ensures OrphanAncestor(hash, depth + 1) == orphans[OrphanAncestor(hash, depth)].block.prev
      decreases depth
    {
      if depth > 0 && hash in orphans {
        OrphanAncestorStep(orphans[hash].block.prev, depth - 1);
      }
    }
  }
}

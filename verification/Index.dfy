// The in-memory block index and its dirty set (blockindex.go).

module Index {
  import opened BlockTree

  class BlockIndex {
    var index: map<Hash, BlockNode>
    var dirty: set<BlockNode>
    /** The statuses in the database: the rows of the block index bucket. */
    var stored: map<Hash, Status>

    ghost function Nodes(): set<BlockNode>
      reads this
    {
      index.Values
    }

    ghost function Statuses(): (statuses: map<BlockNode, Status>)
      reads this, Nodes()
      ensures statuses.Keys == Nodes()
    {
      map n | n in Nodes() :: n.status
    }

    lemma StatusAt(n: BlockNode)
      requires n in Nodes()
      ensures Statuses()[n] == n.status
    {}

    /** Nodes are indexed by their hash, and every status that is not dirty is the one
        in the database. */
    ghost predicate Valid()
      reads this, Nodes()
    {
      && (forall h :: h in index ==> index[h].block.hash == h)
      && (forall n :: n in Nodes() ==> n.block.hash in index && index[n.block.hash] == n)
      && dirty <= Nodes()
      && (forall n :: n in Nodes() && n !in dirty ==> n.block.hash in stored && stored[n.block.hash] == n.status)
    }

    constructor ()
      ensures Valid() && index == map[] && dirty == {}
    {
      index, dirty, stored := map[], {}, map[];
    }

    function LookupNode(hash: Hash): BlockNode?
      reads this
    {
      if hash in index then index[hash] else null
    }

    method AddNode(node: BlockNode)
      requires Valid() && node.block.hash !in index
      modifies this
      ensures Valid()
      ensures index == old(index)[node.block.hash := node] && Nodes() == old(Nodes()) + {node}
      ensures dirty == old(dirty) + {node} && stored == old(stored)
      ensures Statuses() == old(Statuses())[node := node.status]
    {
      index := index[node.block.hash := node];
      dirty := dirty + {node};
      assert index[node.block.hash] == node;
      forall n | n in old(Nodes()) ensures n in Nodes() {
        assert index[n.block.hash] == n;
      }
    }

    method SetStatusFlags(node: BlockNode, flags: Status)
      requires Valid() && node in Nodes()
      modifies this`dirty, node`status
      ensures Valid()
      ensures Statuses() == old(Statuses())[node := old(node.status).With(flags)]
      ensures dirty == old(dirty) + {node}
    {
      node.status := node.status.With(flags);
      dirty := dirty + {node};
    }

    method FlushToDB()
      requires Valid()
      modifies this`dirty, this`stored
      ensures Valid() && dirty == {} && Statuses() == old(Statuses())
    {
      var todo := dirty;
      while todo != {}
        invariant todo <= dirty
        invariant forall n :: n in Nodes() && n !in todo ==> n.block.hash in stored && stored[n.block.hash] == n.status
        decreases todo
      {
        var node :| node in todo;
        stored := stored[node.block.hash := node.status];
        todo := todo - {node};
      }
      dirty := {};
    }
  }
}

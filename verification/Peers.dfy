// The peer set of the server and what peers do to it over their life (server.go,
// peer/peer.go).  Bans, user agents and shutdown decide only whether a peer is
// refused, which is a parameter.

module Peers {
  import opened Wrappers

  datatype PeerId = PeerId(value: nat)

  /** The network group of an address. */
  datatype Group = Group(name: string)

  /** A peer from the moment on that its version message came, or that it is clear that
      none will come; then it has no number. */
  class ServerPeer {
    const inbound: bool
    const persistent: bool
    const group: Group
    const id: PeerId
    const versionKnown: bool
    var verAckReceived: bool
    var disconnected: bool

    constructor (inbound: bool, persistent: bool, group: Group, id: PeerId, versionKnown: bool)
      ensures this.inbound == inbound && this.persistent == persistent && this.group == group
      ensures this.id == id && this.versionKnown == versionKnown && !verAckReceived && !disconnected
    {
      this.inbound, this.persistent, this.group, this.id, this.versionKnown := inbound, persistent, group, id, versionKnown;
      verAckReceived, disconnected := false, false;
    }
  }

  type PeerList = map<PeerId, ServerPeer>

  ghost function InGroup(list: PeerList, g: Group): set<PeerId> {
    set id | id in list && list[id].group == g
  }

  lemma InGroupWith(list: PeerList, id: PeerId, p: ServerPeer, g: Group)
    requires id !in list
    ensures |InGroup(list[id := p], g)| == |InGroup(list, g)| + if p.group == g then 1 else 0
  {
    if p.group == g {
      assert InGroup(list[id := p], g) == InGroup(list, g) + {id};
    } else {
      assert InGroup(list[id := p], g) == InGroup(list, g);
    }
  }

  lemma InGroupWithout(list: PeerList, id: PeerId, g: Group)
    requires id in list
    ensures |InGroup(list - {id}, g)| == |InGroup(list, g)| - if list[id].group == g then 1 else 0
  {
    assert (list - {id})[id := list[id]] == list;
    InGroupWith(list - {id}, id, list[id], g);
  }

  /** The count of a group; a group without an entry counts zero. */
  function CountOf(groups: map<Group, int>, g: Group): int {
    if g in groups then groups[g] else 0
  }

  function Plus(groups: map<Group, int>, g: Group, n: int): map<Group, int> {
    groups[g := CountOf(groups, g) + n]
  }

  /** Every group counts the outbound and the persistent peers in it. */
  ghost predicate CountsOk(groups: map<Group, int>, outbound: PeerList, persistent: PeerList) {
    forall g :: CountOf(groups, g) == |InGroup(outbound, g)| + |InGroup(persistent, g)|
  }

  lemma CountsWith(groups: map<Group, int>, outbound: PeerList, persistent: PeerList, id: PeerId, p: ServerPeer)
    requires CountsOk(groups, outbound, persistent)
    ensures id !in outbound ==> CountsOk(Plus(groups, p.group, 1), outbound[id := p], persistent)
    ensures id !in persistent ==> CountsOk(Plus(groups, p.group, 1), outbound, persistent[id := p])
  {
    forall g ensures id !in outbound ==> |InGroup(outbound[id := p], g)| == |InGroup(outbound, g)| + if p.group == g then 1 else 0 {
      if id !in outbound {
        InGroupWith(outbound, id, p, g);
      }
    }
    forall g ensures id !in persistent ==> |InGroup(persistent[id := p], g)| == |InGroup(persistent, g)| + if p.group == g then 1 else 0 {
      if id !in persistent {
        InGroupWith(persistent, id, p, g);
      }
    }
  }

  lemma CountsWithout(groups: map<Group, int>, outbound: PeerList, persistent: PeerList, id: PeerId)
    requires CountsOk(groups, outbound, persistent)
    ensures id in outbound ==> CountsOk(Plus(groups, outbound[id].group, -1), outbound - {id}, persistent)
    ensures id in persistent ==> CountsOk(Plus(groups, persistent[id].group, -1), outbound, persistent - {id})
  {
    forall g ensures id in outbound ==> |InGroup(outbound - {id}, g)| == |InGroup(outbound, g)| - if outbound[id].group == g then 1 else 0 {
      if id in outbound {
        InGroupWithout(outbound, id, g);
      }
    }
    forall g ensures id in persistent ==> |InGroup(persistent - {id}, g)| == |InGroup(persistent, g)| - if persistent[id].group == g then 1 else 0 {
      if id in persistent {
        InGroupWithout(persistent, id, g);
      }
    }
  }

  function Total(inbound: PeerList, outbound: PeerList, persistent: PeerList): nat {
    |inbound| + |outbound| + |persistent|
  }

  lemma TotalWith(inbound: PeerList, outbound: PeerList, persistent: PeerList, id: PeerId, p: ServerPeer)
    ensures id !in inbound ==> Total(inbound[id := p], outbound, persistent) == Total(inbound, outbound, persistent) + 1
    ensures id !in outbound ==> Total(inbound, outbound[id := p], persistent) == Total(inbound, outbound, persistent) + 1
    ensures id !in persistent ==> Total(inbound, outbound, persistent[id := p]) == Total(inbound, outbound, persistent) + 1
  {}

  lemma SizeWithout(list: PeerList, id: PeerId)
    requires id in list
    ensures |list - {id}| == |list| - 1
  {
    assert (list - {id})[id := list[id]] == list;
  }

  lemma TotalWithout(inbound: PeerList, outbound: PeerList, persistent: PeerList, id: PeerId)
    ensures id in inbound ==> Total(inbound - {id}, outbound, persistent) == Total(inbound, outbound, persistent) - 1
    ensures id in outbound ==> Total(inbound, outbound - {id}, persistent) == Total(inbound, outbound, persistent) - 1
    ensures id in persistent ==> Total(inbound, outbound, persistent - {id}) == Total(inbound, outbound, persistent) - 1
  {
    if id in inbound { SizeWithout(inbound, id); }
    if id in outbound { SizeWithout(outbound, id); }
    if id in persistent { SizeWithout(persistent, id); }
  }

  /** The server with all peers that ever connected. */
  class Server {
    const maxPeers: nat
    var nodeCount: nat
    var inboundPeers: PeerList
    var outboundPeers: PeerList
    var persistentPeers: PeerList
    var outboundGroups: map<Group, int>
    var newPeers: seq<ServerPeer>
    var donePeers: seq<ServerPeer>
    ghost var peers: set<ServerPeer>
    ghost var finished: set<ServerPeer>

    predicate HasId(id: PeerId)
      reads this`inboundPeers, this`outboundPeers, this`persistentPeers
    {
      id in inboundPeers || id in outboundPeers || id in persistentPeers
    }

    /** A list holds peers of one kind, under their numbers, that finished the
        handshake and of which the end was not handled yet. */
    ghost predicate ListOk(list: PeerList, inbound: bool, persistent: bool)
      reads this, peers
    {
      forall k :: k in list ==>
        && list[k] in peers && list[k] !in finished && list[k].id == k && list[k].verAckReceived
        && list[k].inbound == inbound && list[k].persistent == persistent
    }

    /** Numbers are given once. */
    ghost predicate IdsOk()
      reads this, peers
    {
      && (forall p :: p in peers ==> (p.verAckReceived ==> p.versionKnown) && !(p.inbound && p.persistent))
      && (forall p :: p in peers ==> if p.versionKnown then 0 < p.id.value <= nodeCount else p.id == PeerId(0))
      && forall p, q :: p in peers && q in peers && p.versionKnown && q.versionKnown && p.id == q.id ==> p == q
    }

    /** What waits to be handled: peers that finished the handshake and are not listed
        yet, and peers that are gone. */
    ghost predicate QueuesOk()
      reads this, peers
    {
      && (forall i :: 0 <= i < |newPeers| ==> newPeers[i] in peers && newPeers[i].verAckReceived)
      && (forall i, j :: 0 <= i < j < |newPeers| ==> newPeers[i] != newPeers[j])
      && (forall i :: 0 <= i < |newPeers| ==> !HasId(newPeers[i].id))
      && (forall i :: 0 <= i < |donePeers| ==> donePeers[i] in peers && donePeers[i].disconnected && donePeers[i] !in finished)
      && (forall i, j :: 0 <= i < j < |donePeers| ==> donePeers[i] != donePeers[j])
      && finished <= peers && forall p :: p in finished ==> p.disconnected
    }

    ghost predicate Valid()
      reads this, peers
    {
      && ListOk(inboundPeers, true, false) && ListOk(outboundPeers, false, false) && ListOk(persistentPeers, false, true)
      && IdsOk() && QueuesOk()
      && CountsOk(outboundGroups, outboundPeers, persistentPeers)
      && Total(inboundPeers, outboundPeers, persistentPeers) <= maxPeers
    }

    /** No number is in two lists. */
    lemma ListsDisjoint()
      requires Valid()
      ensures inboundPeers.Keys !! outboundPeers.Keys && inboundPeers.Keys !! persistentPeers.Keys && outboundPeers.Keys !! persistentPeers.Keys
    {
      forall k | k in inboundPeers ensures k !in outboundPeers && k !in persistentPeers {
        assert inboundPeers[k] in peers;
      }
      forall k | k in outboundPeers ensures k !in persistentPeers {
        assert outboundPeers[k] in peers;
      }
    }

    constructor (maxPeers: nat)
      ensures Valid() && inboundPeers == outboundPeers == persistentPeers == map[] && peers == {}
    {
      this.maxPeers, nodeCount := maxPeers, 0;
      inboundPeers, outboundPeers, persistentPeers, outboundGroups := map[], map[], map[], map[];
      newPeers, donePeers, peers, finished := [], [], {}, {};
      new;
      assert forall g :: InGroup(map[], g) == {};
    }

    // ----- What peers do -----

    /** A peer is connected and its version message arrives: it gets the next number.  Or
        it does not arrive: it gets none.  A peer that connected to us is not
        persistent. */
    method Connect(inbound: bool, persistent: bool, group: Group, version: bool) returns (p: ServerPeer)
      requires Valid() && !(inbound && persistent)
      modifies this`peers, this`nodeCount
      ensures Valid() && fresh(p) && peers == old(peers) + {p} && p.versionKnown == version
      ensures p.inbound == inbound && p.persistent == persistent && p.group == group
      ensures nodeCount == old(nodeCount) + (if version then 1 else 0) && p.id == PeerId(if version then nodeCount else 0)
    {
      hide CountsOk, InGroup, Total, HasId;
      var id := PeerId(0);
      if version {
        nodeCount := nodeCount + 1;
        id := PeerId(nodeCount);
      }
      p := new ServerPeer(inbound, persistent, group, id, version);
      peers := peers + {p};
    }

    /** The acknowledgement of our version arrives; a second one ends the connection
        before it gets here. */
    method ReceiveVerAck(p: ServerPeer)
      requires Valid() && p in peers && p.versionKnown && !p.verAckReceived
      modifies this`newPeers, p`verAckReceived
      ensures Valid() && newPeers == old(newPeers) + [p]
    {
      hide CountsOk, InGroup, Total;
      p.verAckReceived := true;
      newPeers := newPeers + [p];
    }

    method Disconnect(p: ServerPeer)
      requires Valid() && p in peers
      modifies p`disconnected
      ensures Valid() && p.disconnected
    {
      hide CountsOk, InGroup, Total;
      p.disconnected := true;
    }

    /** The goroutine that waits for the end of a peer reports it, once. */
    method PeerDone(p: ServerPeer)
      requires Valid() && p in peers && p.disconnected && p !in donePeers && p !in finished
      modifies this`donePeers
      ensures Valid() && donePeers == old(donePeers) + [p]
    {
      hide CountsOk, InGroup, Total;
      donePeers := donePeers + [p];
    }

    // ----- What the handler does -----

    /** Adds the next new peer, unless it is gone or refused or there are too many. */
    method HandleAddPeer(p: ServerPeer, refused: bool) returns (added: bool)
      requires Valid() && newPeers != [] && newPeers[0] == p
      modifies this, p`disconnected
      ensures Valid() && newPeers == old(newPeers[1..]) && donePeers == old(donePeers)
      ensures added <==> old(!p.disconnected) && !refused && old(Total(inboundPeers, outboundPeers, persistentPeers)) < maxPeers
      ensures (added <==> HasId(p.id)) && (added || p.disconnected)
      ensures inboundPeers == if added && p.inbound then old(inboundPeers)[p.id := p] else old(inboundPeers)
      ensures outboundPeers == if added && !p.inbound && !p.persistent then old(outboundPeers)[p.id := p] else old(outboundPeers)
      ensures persistentPeers == if added && p.persistent then old(persistentPeers)[p.id := p] else old(persistentPeers)
      ensures peers == old(peers) && finished == old(finished) && nodeCount == old(nodeCount)
    {
      hide CountsOk, InGroup, Total, ListOk, IdsOk, QueuesOk;
      TakeNewPeer(p);
      if p.disconnected {
        return false;
      }
      if refused || Total(inboundPeers, outboundPeers, persistentPeers) >= maxPeers {
        Disconnect(p);
        return false;
      }
      ListPeer(p);
      added := true;
    }

    method TakeNewPeer(p: ServerPeer)
      requires Valid() && newPeers != [] && newPeers[0] == p
      modifies this`newPeers
      ensures Valid() && newPeers == old(newPeers[1..]) && !HasId(p.id) && p in peers && p.verAckReceived && p !in newPeers
      ensures p in finished ==> p.disconnected
    {
      hide CountsOk, InGroup, Total;
      newPeers := newPeers[1..];
    }

    method ListPeer(p: ServerPeer)
      requires Valid() && MayList(p)
      modifies this`inboundPeers, this`outboundPeers, this`persistentPeers, this`outboundGroups
      ensures Valid()
      ensures inboundPeers == if p.inbound then old(inboundPeers)[p.id := p] else old(inboundPeers)
      ensures outboundPeers == if !p.inbound && !p.persistent then old(outboundPeers)[p.id := p] else old(outboundPeers)
      ensures persistentPeers == if p.persistent then old(persistentPeers)[p.id := p] else old(persistentPeers)
    {
      hide CountsOk, InGroup, Total, ListOk, QueuesOk;
      if p.inbound {
        ListInbound(p);
      } else if p.persistent {
        ListPersistent(p);
      } else {
        ListOutbound(p);
      }
    }

    ghost predicate MayList(p: ServerPeer)
      reads this, p
    {
      && p in peers && p.verAckReceived && !p.disconnected && p !in newPeers && p !in finished && !HasId(p.id)
      && Total(inboundPeers, outboundPeers, persistentPeers) < maxPeers
    }

    method ListInbound(p: ServerPeer)
      requires Valid() && MayList(p) && p.inbound
      modifies this`inboundPeers
      ensures Valid() && inboundPeers == old(inboundPeers)[p.id := p]
    {
      hide CountsOk, InGroup, Total;
      TotalWith(inboundPeers, outboundPeers, persistentPeers, p.id, p);
      inboundPeers := inboundPeers[p.id := p];
    }

    method ListOutbound(p: ServerPeer)
      requires Valid() && MayList(p) && !p.inbound && !p.persistent
      modifies this`outboundPeers, this`outboundGroups
      ensures Valid() && outboundPeers == old(outboundPeers)[p.id := p]
    {
      hide CountsOk, InGroup, Total;
      TotalWith(inboundPeers, outboundPeers, persistentPeers, p.id, p);
      CountsWith(outboundGroups, outboundPeers, persistentPeers, p.id, p);
      outboundGroups := Plus(outboundGroups, p.group, 1);
      outboundPeers := outboundPeers[p.id := p];
    }

    method ListPersistent(p: ServerPeer)
      requires Valid() && MayList(p) && p.persistent
      modifies this`persistentPeers, this`outboundGroups
      ensures Valid() && persistentPeers == old(persistentPeers)[p.id := p]
    {
      hide CountsOk, InGroup, Total;
      TotalWith(inboundPeers, outboundPeers, persistentPeers, p.id, p);
      CountsWith(outboundGroups, outboundPeers, persistentPeers, p.id, p);
      outboundGroups := Plus(outboundGroups, p.group, 1);
      persistentPeers := persistentPeers[p.id := p];
    }

    method DropInbound(id: PeerId)
      requires Valid() && id in inboundPeers
      modifies this`inboundPeers
      ensures Valid() && inboundPeers == old(inboundPeers) - {id}
    {
      hide CountsOk, InGroup, Total;
      TotalWithout(inboundPeers, outboundPeers, persistentPeers, id);
      inboundPeers := inboundPeers - {id};
    }

    method DropOutbound(id: PeerId)
      requires Valid() && id in outboundPeers
      modifies this`outboundPeers, this`outboundGroups
      ensures Valid() && outboundPeers == old(outboundPeers) - {id}
    {
      hide CountsOk, InGroup, Total;
      TotalWithout(inboundPeers, outboundPeers, persistentPeers, id);
      CountsWithout(outboundGroups, outboundPeers, persistentPeers, id);
      outboundGroups := Plus(outboundGroups, outboundPeers[id].group, -1);
      outboundPeers := outboundPeers - {id};
    }

    method DropPersistent(id: PeerId)
      requires Valid() && id in persistentPeers
      modifies this`persistentPeers, this`outboundGroups
      ensures Valid() && persistentPeers == old(persistentPeers) - {id}
    {
      hide CountsOk, InGroup, Total;
      TotalWithout(inboundPeers, outboundPeers, persistentPeers, id);
      CountsWithout(outboundGroups, outboundPeers, persistentPeers, id);
      outboundGroups := Plus(outboundGroups, persistentPeers[id].group, -1);
      persistentPeers := persistentPeers - {id};
    }

    /** A number that is in a list belongs to the peer there, which is of that kind. */
    lemma OnlyInItsList(p: ServerPeer)
      requires Valid() && p in peers
      ensures p.id in inboundPeers ==> p.inbound && !p.persistent && inboundPeers[p.id] == p
      ensures p.id in outboundPeers ==> !p.inbound && !p.persistent && outboundPeers[p.id] == p
      ensures p.id in persistentPeers ==> !p.inbound && p.persistent && persistentPeers[p.id] == p
      ensures HasId(p.id) ==> p.versionKnown
    {
      hide CountsOk, InGroup, Total;
      assert p.id in inboundPeers ==> inboundPeers[p.id] in peers && inboundPeers[p.id].id == p.id;
      assert p.id in outboundPeers ==> outboundPeers[p.id] in peers && outboundPeers[p.id].id == p.id;
      assert p.id in persistentPeers ==> persistentPeers[p.id] in peers && persistentPeers[p.id].id == p.id;
    }

    /** Takes the next peer that is done out of the list it is in, if it is in one. */
    method HandleDonePeer(p: ServerPeer)
      requires Valid() && donePeers != [] && donePeers[0] == p
      modifies this
      ensures Valid() && donePeers == old(donePeers[1..]) && newPeers == old(newPeers)
      ensures !HasId(p.id) && finished == old(finished) + {p}
      ensures inboundPeers == old(inboundPeers) - {p.id}
      ensures outboundPeers == old(outboundPeers) - {p.id}
      ensures persistentPeers == old(persistentPeers) - {p.id}
      ensures peers == old(peers) && nodeCount == old(nodeCount)
    {
      hide CountsOk, InGroup, Total, ListOk, IdsOk, QueuesOk;
      DoneIsKnown(p);
      OnlyInItsList(p);
      if p.persistent {
        if p.id in persistentPeers {
          DropPersistent(p.id);
        }
      } else if p.inbound {
        if p.id in inboundPeers {
          DropInbound(p.id);
        }
      } else if p.id in outboundPeers {
        // The count goes down because the version of a listed peer is known.
        assert p.versionKnown;
        DropOutbound(p.id);
      }
      Finish(p);
    }

    lemma DoneIsKnown(p: ServerPeer)
      requires Valid() && donePeers != [] && donePeers[0] == p
      ensures p in peers
    {}

    method Finish(p: ServerPeer)
      requires Valid() && donePeers != [] && donePeers[0] == p && !HasId(p.id)
      modifies this`donePeers, this`finished
      ensures Valid() && donePeers == old(donePeers[1..]) && finished == old(finished) + {p}
    {
      hide CountsOk, InGroup, Total;
      donePeers := donePeers[1..];
      finished := finished + {p};
    }

    /** The number of outbound and persistent peers in a group. */
    method GetOutboundGroup(g: Group) returns (count: int)
      requires Valid()
      ensures count == |InGroup(outboundPeers, g)| + |InGroup(persistentPeers, g)| >= 0
    {
      hide InGroup, Total, ListOk, IdsOk, QueuesOk;
      count := if g in outboundGroups then outboundGroups[g] else 0;
      assert count == CountOf(outboundGroups, g);
    }

    /** Some peer of a list that is wanted. */
    static method FindPeer(list: PeerList, wanted: set<ServerPeer>) returns (found: Option<PeerId>)
      ensures found.Some? ==> found.value in list && list[found.value] in wanted
      ensures found.None? ==> forall id :: id in list ==> list[id] !in wanted
    {
      var todo := list.Keys;
      while todo != {}
        invariant todo <= list.Keys
        invariant forall id :: id in list && id !in todo ==> list[id] !in wanted
        decreases todo
      {
        var id :| id in todo;
        if list[id] in wanted {
          return Some(id);
        }
        todo := todo - {id};
      }
      found := None;
    }

    /** Removes a persistent peer that is wanted, if there is one. */
    method RemoveNode(wanted: set<ServerPeer>) returns (found: Option<PeerId>)
      requires Valid()
      modifies this`persistentPeers, this`outboundGroups, persistentPeers.Values`disconnected
      ensures Valid()
      ensures found.None? ==> persistentPeers == old(persistentPeers) && forall id :: id in persistentPeers ==> persistentPeers[id] !in wanted
      ensures found.Some? ==> var id := found.value;
                id in old(persistentPeers) && old(persistentPeers[id]) in wanted
                && persistentPeers == old(persistentPeers) - {id} && old(persistentPeers[id]).disconnected
    {
      hide CountsOk, InGroup, Total, ListOk, IdsOk, QueuesOk;
      found := FindPeer(persistentPeers, wanted);
      if found.Some? {
        var p := persistentPeers[found.value];
        ListedIsKnown(found.value);
        DropPersistent(found.value);
        Disconnect(p);
      }
    }

    lemma ListedIsKnown(id: PeerId)
      requires Valid()
      ensures id in inboundPeers ==> inboundPeers[id] in peers
      ensures id in outboundPeers ==> outboundPeers[id] in peers
      ensures id in persistentPeers ==> persistentPeers[id] in peers
    {
      hide CountsOk, InGroup, Total;
    }

    /** Disconnects one inbound peer that is wanted or, if there is none, all outbound
        ones that are. */
    method DisconnectNode(wanted: set<ServerPeer>) returns (found: bool)
      requires Valid()
      modifies this`inboundPeers, this`outboundPeers, this`outboundGroups, inboundPeers.Values`disconnected, outboundPeers.Values`disconnected
      ensures Valid()
      ensures found <==> old(exists id :: id in inboundPeers && inboundPeers[id] in wanted) || old(exists id :: id in outboundPeers && outboundPeers[id] in wanted)
      ensures old(exists id :: id in inboundPeers && inboundPeers[id] in wanted) ==>
                && outboundPeers == old(outboundPeers)
                && exists id :: id in old(inboundPeers) && old(inboundPeers[id]) in wanted && inboundPeers == old(inboundPeers) - {id}
                                && old(inboundPeers[id]).disconnected
      ensures old(forall id :: id in inboundPeers ==> inboundPeers[id] !in wanted) ==>
                && inboundPeers == old(inboundPeers)
                && outboundPeers == (map id | id in old(outboundPeers) && old(outboundPeers[id]) !in wanted :: old(outboundPeers[id]))
                && forall id :: id in old(outboundPeers) && old(outboundPeers[id]) in wanted ==> old(outboundPeers[id]).disconnected
    {
      hide CountsOk, InGroup, Total, ListOk, IdsOk, QueuesOk;
      var first := FindPeer(inboundPeers, wanted);
      if first.Some? {
        var p := inboundPeers[first.value];
        ListedIsKnown(first.value);
        DropInbound(first.value);
        Disconnect(p);
        return true;
      }
      found := DisconnectOutbound(wanted);
    }

    method DisconnectOutbound(wanted: set<ServerPeer>) returns (found: bool)
      requires Valid()
      modifies this`outboundPeers, this`outboundGroups, outboundPeers.Values`disconnected
      ensures Valid()
      ensures found <==> old(exists id :: id in outboundPeers && outboundPeers[id] in wanted)
      ensures outboundPeers == (map id | id in old(outboundPeers) && old(outboundPeers[id]) !in wanted :: old(outboundPeers[id]))
      ensures forall id :: id in old(outboundPeers) && old(outboundPeers[id]) in wanted ==> old(outboundPeers[id]).disconnected
    {
      hide CountsOk, InGroup, Total, ListOk, IdsOk, QueuesOk;
      var next := FindPeer(outboundPeers, wanted);
      found := next.Some?;
      while next.Some?
        invariant Valid()
        invariant next.Some? ==> next.value in outboundPeers && outboundPeers[next.value] in wanted
        invariant next.None? ==> forall id :: id in outboundPeers ==> outboundPeers[id] !in wanted
        invariant forall id :: id in outboundPeers ==> id in old(outboundPeers) && outboundPeers[id] == old(outboundPeers[id])
        invariant forall id :: id in old(outboundPeers) && id !in outboundPeers ==>
                    old(outboundPeers[id]) in wanted && old(outboundPeers[id]).disconnected
        decreases outboundPeers.Keys, next.Some?
      {
        var p := outboundPeers[next.value];
        ListedIsKnown(next.value);
        DropOutbound(next.value);
        Disconnect(p);
        next := FindPeer(outboundPeers, wanted);
      }
    }
  }
}

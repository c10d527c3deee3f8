/** The link-creation loop and the route setup of scratch/network_setup.h. */
module Setup {
  import opened Words
  import opened Sequences
  import opened Net
  import opened Bfs
  import opened Topology
  import Metrics

  // One line of the topology file: the two ends, the channel delay and the device rate.
  datatype LinkSpec = LinkSpec(src: Node, dst: Node, delay: U64, bw: U64)

  ghost predicate SpecsOk(links: seq<LinkSpec>, size: nat) {
    forall k :: 0 <= k < |links| ==> links[k].src < size && links[k].dst < size && links[k].bw > 0
  }

  ghost predicate Joins(l: LinkSpec, a: Node, b: Node) {
    (l.src == a && l.dst == b) || (l.src == b && l.dst == a)
  }

  // links[k] is the last line that joins a and b; earlier ones are overwritten.
  ghost predicate LastJoin(links: seq<LinkSpec>, k: nat, a: Node, b: Node) {
    k < |links| && Joins(links[k], a, b) && forall j :: k < j < |links| ==> !Joins(links[j], a, b)
  }

  // The lines before line k that start at a, and those that end there.
  ghost function Sources(links: seq<LinkSpec>, k: nat, a: Node): set<nat>
    requires k <= |links|
  {
    set j: nat | j < k && links[j].src == a
  }

  ghost function Sinks(links: seq<LinkSpec>, k: nat, a: Node): set<nat>
    requires k <= |links|
  {
    set j: nat | j < k && links[j].dst == a
  }

  // How many link ends lie at a in the lines before line k.
  ghost function Ends(links: seq<LinkSpec>, k: nat, a: Node): nat
    requires k <= |links|
  {
    |Sources(links, k, a)| + |Sinks(links, k, a)|
  }

  // The interface towards b has the delay and rate of the last line that joins the two, and follows
  // the loopback device and all the ends that a has got before; on a link from a to itself, the
  // second end counts.
  ghost predicate FromFile(g: Network, links: seq<LinkSpec>, a: Node, b: Node) {
    exists k: nat ::
      && LastJoin(links, k, a, b) && At(g.nbr, a, b).delay == links[k].delay && At(g.nbr, a, b).bw == links[k].bw
      && At(g.nbr, a, b).idx == 1 + Ends(links, k, a) + if a == b then 1 else 0
  }

  // The index the next device of each node gets.
  ghost predicate Counted(links: seq<LinkSpec>, devices: seq<nat>) {
    forall a :: 0 <= a < |devices| ==> devices[a] == 1 + Ends(links, |links|, a)
  }

  lemma EndsKept(links: seq<LinkSpec>, l: LinkSpec, k: nat, a: Node)
    requires k <= |links|
    ensures Ends(links + [l], k, a) == Ends(links, k, a)
  {
    assert Sources(links + [l], k, a) == Sources(links, k, a) && Sinks(links + [l], k, a) == Sinks(links, k, a);
  }

  lemma EndsSnoc(links: seq<LinkSpec>, l: LinkSpec, a: Node)
    ensures Ends(links + [l], |links| + 1, a) ==
            Ends(links, |links|, a) + (if l.src == a then 1 else 0) + if l.dst == a then 1 else 0
  {
    SourcesSnoc(links, l, a);
    SinksSnoc(links, l, a);
  }

  lemma SourcesSnoc(links: seq<LinkSpec>, l: LinkSpec, a: Node)
    ensures |Sources(links + [l], |links| + 1, a)| == |Sources(links, |links|, a)| + if l.src == a then 1 else 0
  {
    var n, was := |links|, Sources(links, |links|, a);
    assert Sources(links + [l], n + 1, a) == if l.src == a then was + {n} else was;
  }

  lemma SinksSnoc(links: seq<LinkSpec>, l: LinkSpec, a: Node)
    ensures |Sinks(links + [l], |links| + 1, a)| == |Sinks(links, |links|, a)| + if l.dst == a then 1 else 0
  {
    var n, was := |links|, Sinks(links, |links|, a);
    assert Sinks(links + [l], n + 1, a) == if l.dst == a then was + {n} else was;
  }

  // Exactly the links of the file are present, all up in both directions, with its attributes.
  ghost predicate Built(g: Network, links: seq<LinkSpec>) {
    && (forall a: Node, b: Node :: g.Up(a, b) <==> exists k :: 0 <= k < |links| && Joins(links[k], a, b))
    && (forall a: Node, b: Node :: a in g.nbr && b in g.nbr[a] ==> g.nbr[a][b].up)
    && (forall a: Node, b: Node :: g.Up(a, b) ==> g.Up(b, a) && FromFile(g, links, a, b))
  }

  // Indices handed out so far are positive, below the node's device count, and distinct.
  ghost predicate PortsOk(g: Network, devices: seq<nat>) {
    && |devices| == |g.kind|
    && (forall a: Node, b: Node :: g.Up(a, b) ==>
          a < |devices| && b < |devices| && 0 < g.nbr[a][b].idx < devices[a] && g.nbr[a][b].bw > 0)
    && (forall a: Node, b: Node, c: Node :: g.Up(a, b) && g.Up(a, c) && g.nbr[a][b].idx == g.nbr[a][c].idx ==> b == c)
  }

  // nbr2if[src][dst] and nbr2if[dst][src] are assigned, in this order.
  function Join(nbr: Links, l: LinkSpec, i: U32, j: U32): Links {
    PutLink(PutLink(nbr, l.src, l.dst, Interface(i, true, l.delay, l.bw)), l.dst, l.src,
            Interface(j, true, l.delay, l.bw))
  }

  // f is g with both directions of l assigned.
  ghost predicate Joined(g: Network, f: Network, l: LinkSpec, i: U32, j: U32) {
    && f.kind == g.kind
    && (forall a: Node, b: Node :: f.Up(a, b) <==> g.Up(a, b) || Joins(l, a, b))
    && (forall a: Node, b: Node :: a in f.nbr && b in f.nbr[a] ==> (a in g.nbr && b in g.nbr[a]) || Joins(l, a, b))
    && (forall a: Node, b: Node :: f.Up(a, b) ==> f.nbr[a][b] == NewEnd(g, l, i, j, a, b))
  }

  ghost function NewEnd(g: Network, l: LinkSpec, i: U32, j: U32, a: Node, b: Node): Interface {
    if a == l.dst && b == l.src then Interface(j, true, l.delay, l.bw)
    else if a == l.src && b == l.dst then Interface(i, true, l.delay, l.bw)
    else At(g.nbr, a, b)
  }

  lemma JoinAssigns(g: Network, l: LinkSpec, i: U32, j: U32)
    ensures Joined(g, Network(g.kind, Join(g.nbr, l, i, j)), l, i, j)
  {
    var f := Network(g.kind, Join(g.nbr, l, i, j));
    forall a: Node, b: Node
      ensures f.Up(a, b) <==> g.Up(a, b) || Joins(l, a, b)
      ensures a in f.nbr && b in f.nbr[a] ==> (a in g.nbr && b in g.nbr[a]) || Joins(l, a, b)
      ensures f.Up(a, b) ==> f.nbr[a][b] == NewEnd(g, l, i, j, a, b)
    {
    }
  }

  // l gets the next index at its source, and then the next at its destination.
  ghost predicate NextPorts(links: seq<LinkSpec>, l: LinkSpec, i: U32, j: U32) {
    && i == 1 + Ends(links, |links|, l.src)
    && j == 1 + Ends(links, |links|, l.dst) + if l.src == l.dst then 1 else 0
  }

  lemma JoinBuilt(g: Network, f: Network, links: seq<LinkSpec>, l: LinkSpec, i: U32, j: U32)
    requires Built(g, links) && Joined(g, f, l, i, j) && NextPorts(links, l, i, j)
    ensures Built(f, links + [l])
  {
    hide NextPorts, FromFile;
    forall a: Node, b: Node
      ensures f.Up(a, b) <==> exists k :: 0 <= k < |links + [l]| && Joins((links + [l])[k], a, b)
    {
      if k :| 0 <= k < |links| && Joins(links[k], a, b) {
        assert Joins((links + [l])[k], a, b);
      }
      if Joins(l, a, b) {
        assert Joins((links + [l])[|links|], a, b);
      }
      if k :| 0 <= k < |links + [l]| && Joins((links + [l])[k], a, b) {
        assert k < |links| ==> Joins(links[k], a, b);
      }
    }
    forall a: Node, b: Node | a in f.nbr && b in f.nbr[a] ensures f.nbr[a][b].up {
      assert g.Up(a, b) || Joins(l, a, b);
    }
    forall a: Node, b: Node | f.Up(a, b) ensures f.Up(b, a) && FromFile(f, links + [l], a, b) {
      assert g.Up(a, b) ==> g.Up(b, a);
      assert Joins(l, a, b) <==> Joins(l, b, a);
      JoinFromFile(g, f, links, l, i, j, a, b);
    }
  }

  lemma JoinFromFile(g: Network, f: Network, links: seq<LinkSpec>, l: LinkSpec, i: U32, j: U32, a: Node, b: Node)
    requires Joined(g, f, l, i, j) && f.Up(a, b) && (g.Up(a, b) ==> FromFile(g, links, a, b))
    requires NextPorts(links, l, i, j)
    ensures FromFile(f, links + [l], a, b)
  {
    hide Ends;
    var all := links + [l];
    if Joins(l, a, b) {
      EndsKept(links, l, |links|, a);
      assert LastJoin(all, |links|, a, b);
    } else {
      var k: nat :| LastJoin(links, k, a, b) && At(g.nbr, a, b).delay == links[k].delay &&
                    At(g.nbr, a, b).bw == links[k].bw &&
                    At(g.nbr, a, b).idx == 1 + Ends(links, k, a) + if a == b then 1 else 0;
      EndsKept(links, l, k, a);
      forall m | k < m < |all| ensures !Joins(all[m], a, b) {
        assert m < |links| ==> all[m] == links[m];
      }
      assert LastJoin(all, k, a, b);
    }
  }

  lemma JoinPorts(g: Network, f: Network, l: LinkSpec, devices: seq<nat>, devices': seq<nat>, i: U32, j: U32)
    requires PortsOk(g, devices) && Joined(g, f, l, i, j) && |devices'| == |devices|
    requires l.src < |devices| && l.dst < |devices| && l.bw > 0
    requires 0 < devices[l.src] <= i && 0 < devices[l.dst] <= j
    requires forall n :: 0 <= n < |devices| ==> devices[n] <= devices'[n]
    requires i < devices'[l.src] && j < devices'[l.dst]
    ensures PortsOk(f, devices')
  {
    forall a: Node, b: Node | f.Up(a, b)
      ensures a < |devices'| && b < |devices'| && 0 < f.nbr[a][b].idx < devices'[a] && f.nbr[a][b].bw > 0
      ensures Joins(l, a, b) || f.nbr[a][b].idx < devices[a]
      ensures Joins(l, a, b) ==> f.nbr[a][b].idx >= devices[a]
    {
      assert Joins(l, a, b) || g.Up(a, b);
    }
    forall a: Node, b: Node, c: Node | f.Up(a, b) && f.Up(a, c) && f.nbr[a][b].idx == f.nbr[a][c].idx ensures b == c {
      if !Joins(l, a, b) && !Joins(l, a, c) {
        assert g.Up(a, b) && g.Up(a, c);
      }
    }
  }

  lemma BuiltWellFormed(g: Network, links: seq<LinkSpec>, devices: seq<nat>)
    requires Built(g, links) && PortsOk(g, devices)
    ensures g.WellFormed()
  {
    assert forall a: Node, b: Node :: a in g.nbr && b in g.nbr[a] ==> g.Up(a, b);
  }

  lemma EmptyBuilt(g: Network, devices: seq<nat>)
    requires g.nbr == map[] && |devices| == |g.kind|
    ensures Built(g, []) && PortsOk(g, devices)
  {
  }

  lemma NoneCounted(devices: seq<nat>)
    requires forall a :: 0 <= a < |devices| ==> devices[a] == 1
    ensures Counted([], devices)
  {
    forall a | 0 <= a < |devices| ensures Ends([], 0, a) == 0 {
      assert Sources([], 0, a) == {} && Sinks([], 0, a) == {};
    }
  }

  lemma CountStep(links: seq<LinkSpec>, l: LinkSpec, devices: seq<nat>, i: U32, j: U32, devices': seq<nat>)
    requires Counted(links, devices) && l.src < |devices| && l.dst < |devices|
    requires i == devices[l.src] && j == devices[l.dst := devices[l.dst] + if l.src == l.dst then 1 else 0][l.dst]
    requires devices' == devices[l.src := i + 1][l.dst := j + 1]
    ensures NextPorts(links, l, i, j) && Counted(links + [l], devices')
  {
    hide Ends;
    forall a | 0 <= a < |devices'| ensures devices'[a] == 1 + Ends(links + [l], |links| + 1, a) {
      EndsSnoc(links, l, a);
    }
  }

  method BuildLinks(topo: TopologyState, nodes: NodeContainer, links: seq<LinkSpec>)
    requires topo.nbr2if == map[] && SpecsOk(links, |nodes.kind|) && 2 * |links| < 0xffff_ffff
    modifies topo`nbr2if
    ensures topo.Graph(nodes).WellFormed() && Built(topo.Graph(nodes), links)
  {
    hide Built, PortsOk, Joined, PutLink, Ends, Counted, NextPorts;
    EmptyBuilt(topo.Graph(nodes), seq(|nodes.kind|, i => 1));
    // Per node, the index the next installed device gets; index 0 is the loopback device.
    var devices: seq<nat> := seq(|nodes.kind|, i => 1);
    NoneCounted(devices);
    for i := 0 to |links|
      invariant Built(topo.Graph(nodes), links[..i]) && PortsOk(topo.Graph(nodes), devices)
      invariant Counted(links[..i], devices)
      invariant |devices| == |nodes.kind| && forall n :: 0 <= n < |devices| ==> 0 < devices[n] <= 1 + 2 * i
    {
      var l := links[i];
      ghost var before, was := topo.Graph(nodes), devices;
      var srcIdx := devices[l.src];
      devices := devices[l.src := srcIdx + 1];
      var dstIdx := devices[l.dst];
      devices := devices[l.dst := dstIdx + 1];
      topo.nbr2if := PutLink(topo.nbr2if, l.src, l.dst, Interface(srcIdx, true, l.delay, l.bw));
      topo.nbr2if := PutLink(topo.nbr2if, l.dst, l.src, Interface(dstIdx, true, l.delay, l.bw));
      CountStep(links[..i], l, was, srcIdx, dstIdx, devices);
      JoinAssigns(before, l, srcIdx, dstIdx);
      JoinBuilt(before, topo.Graph(nodes), links[..i], l, srcIdx, dstIdx);
      JoinPorts(before, topo.Graph(nodes), l, was, devices, srcIdx, dstIdx);
      assert links[..i + 1] == links[..i] + [l];
    }
    assert links[..|links|] == links;
    BuiltWellFormed(topo.Graph(nodes), links, devices);
  }

  // Links, routes, delay matrices and tables, in the order SetupNetwork computes them.
  method SetupRouting(topo: TopologyState, nodes: NodeContainer, links: seq<LinkSpec>)
    requires topo.nbr2if == map[] && topo.nextHop == map[]
    requires topo.pairDelay == map[] && topo.pairTxDelay == map[] && topo.pairBw == map[]
    requires nodes.table == EmptyTables(|nodes.kind|) && |nodes.kind| <= U32_SIZE
    requires SpecsOk(links, |nodes.kind|) && 2 * |links| < 0xffff_ffff
    modifies topo, nodes
    ensures topo.Valid(nodes) && nodes.Valid()
    ensures topo.Graph(nodes).WellFormed() && Built(topo.Graph(nodes), links)
    ensures Consistent(Snapshot(topo.Graph(nodes), topo.nextHop, nodes.table))
    ensures PairsRecorded(topo.Graph(nodes), topo.packetPayloadSize, Pairs(map[], map[], map[]), topo.PairsNow(),
                          |nodes.kind|)
    ensures Metrics.Computed(topo.Graph(nodes), topo.PairsNow(), topo.pairRtt, topo.pairBdp,
                             |nodes.kind|, 0, |nodes.kind|)
    ensures Metrics.Greatest(topo.Graph(nodes), topo.pairRtt, topo.maxRtt, |nodes.kind|, 0, |nodes.kind|)
    ensures Metrics.Greatest(topo.Graph(nodes), topo.pairBdp, topo.maxBdp, |nodes.kind|, 0, |nodes.kind|)
  {
    hide Built, PairsRecorded, Metrics.Computed, Metrics.Greatest;
    hide RoutesAppended, TablesAppended, TablesMatch, Routed, SpecsOk;
    BuildLinks(topo, nodes, links);
    topo.CalculateRoutes(nodes);
    Metrics.ComputeBdpAndRtt(topo, nodes, |nodes.kind|);
    topo.SetRoutingEntries(nodes);
    FreshRouted(topo.Graph(nodes), topo.nextHop);
    FreshTables(topo.Graph(nodes), topo.nextHop, nodes.table);
  }

  // ---- BGP peers: one per up link, numbered from the node ids ----

  datatype Peer = Peer(localAsn: U32, peerAsn: U32, address: U32, passive: bool, noNexthopCheck: bool,
                       forcedDefaultNexthop: bool)

  function Asn(id: Node): U32 { (65000 + id) % U32_SIZE }

  // What node i is told about its neighbour b; addresses holds each node's first own address.
  function PeerFor(addresses: seq<U32>, i: Node, b: Node): Peer
    requires b < |addresses|
  {
    Peer(Asn(i), Asn(b), addresses[b], false, true, true)
  }

  ghost predicate PeersOf(g: Network, addresses: seq<U32>, i: Node, peers: seq<Peer>)
    requires g.InRange() && |g.kind| == |addresses|
  {
    NoDup(peers) && forall p :: p in peers <==> exists b: Node :: g.Up(i, b) && p == PeerFor(addresses, i, b)
  }

  // Each entry of node i carries i's own number and the flags, and belongs to a neighbour on an up
  // link, with its number and its address; each such neighbour has exactly one entry.
  method BuildPeers(topo: TopologyState, nodes: NodeContainer, addresses: seq<U32>) returns (peers: seq<seq<Peer>>)
    requires topo.Graph(nodes).InRange() && |nodes.kind| == |addresses| <= U32_SIZE
    ensures |peers| == |nodes.kind|
    ensures forall i: Node :: i < |peers| ==> PeersOf(topo.Graph(nodes), addresses, i, peers[i])
    ensures forall i: Node, k :: i < |peers| && 0 <= k < |peers[i]| ==>
              var p := peers[i][k];
              && p.localAsn == (65000 + i) % 0x1_0000_0000 && !p.passive && p.noNexthopCheck && p.forcedDefaultNexthop
              && exists b: Node :: topo.Graph(nodes).Up(i, b) && b < |addresses| &&
                                   p.peerAsn == (65000 + b) % 0x1_0000_0000 && p.address == addresses[b]
    ensures forall i: Node, b: Node :: i < |peers| && topo.Graph(nodes).Up(i, b) ==>
              OnePeer(peers[i], (65000 + b) % 0x1_0000_0000, addresses[b])
  {
    peers := [];
    for i := 0 to |nodes.kind|
      invariant |peers| == i && forall k: Node :: k < i ==> PeersOf(topo.Graph(nodes), addresses, k, peers[k])
    {
      var mine := PeersOfNode(topo, nodes, addresses, i);
      peers := peers + [mine];
    }
    hide PeersOf, OnePeer, Asn;
    forall i: Node | i < |peers| {
      PeersMean(topo.Graph(nodes), addresses, i, peers[i]);
    }
  }

  // Exactly one entry is for number asn, and it has the address.
  ghost predicate OnePeer(peers: seq<Peer>, asn: nat, address: U32) {
    exists k :: 0 <= k < |peers| && peers[k].peerAsn == asn && peers[k].address == address &&
                forall l :: 0 <= l < |peers| && l != k ==> peers[l].peerAsn != asn
  }

  lemma PeersMean(g: Network, addresses: seq<U32>, i: Node, mine: seq<Peer>)
    requires g.InRange() && |g.kind| == |addresses| <= U32_SIZE && PeersOf(g, addresses, i, mine)
    ensures forall k :: 0 <= k < |mine| ==>
              var p := mine[k];
              && p.localAsn == (65000 + i) % 0x1_0000_0000 && !p.passive && p.noNexthopCheck && p.forcedDefaultNexthop
              && exists b: Node :: g.Up(i, b) && b < |addresses| &&
                                   p.peerAsn == (65000 + b) % 0x1_0000_0000 && p.address == addresses[b]
    ensures forall b: Node :: g.Up(i, b) ==>
              OnePeer(mine, (65000 + b) % 0x1_0000_0000, addresses[b])
  {
    forall k | 0 <= k < |mine|
      ensures exists b: Node :: g.Up(i, b) && mine[k] == PeerFor(addresses, i, b)
    {
      assert mine[k] in mine;
    }
    forall b: Node | g.Up(i, b)
      ensures OnePeer(mine, (65000 + b) % 0x1_0000_0000, addresses[b])
    {
      PeerOnce(g, addresses, i, mine, b);
    }
  }

  lemma PeerOnce(g: Network, addresses: seq<U32>, i: Node, mine: seq<Peer>, b: Node)
    requires g.InRange() && |g.kind| == |addresses| <= U32_SIZE && PeersOf(g, addresses, i, mine) && g.Up(i, b)
    ensures OnePeer(mine, (65000 + b) % 0x1_0000_0000, addresses[b])
  {
    var p := PeerFor(addresses, i, b);
    assert p in mine;
    var k :| 0 <= k < |mine| && mine[k] == p;
    forall l | 0 <= l < |mine| && l != k ensures mine[l].peerAsn != p.peerAsn {
      assert mine[l] in mine;
      var c: Node :| g.Up(i, c) && mine[l] == PeerFor(addresses, i, c);
      assert mine[l] != mine[k];
      AsnDiffer(b, c);
    }
  }

  lemma AsnDiffer(a: Node, b: Node)
    requires a < U32_SIZE && b < U32_SIZE
    ensures Asn(a) == Asn(b) ==> a == b
  {
  }

  // The loop over the neighbours of one node, in any order.
  method PeersOfNode(topo: TopologyState, nodes: NodeContainer, addresses: seq<U32>, i: Node) returns (peers: seq<Peer>)
    requires topo.Graph(nodes).InRange() && |nodes.kind| == |addresses| <= U32_SIZE
    ensures PeersOf(topo.Graph(nodes), addresses, i, peers)
  {
    hide Asn;
    ghost var g := topo.Graph(nodes);
    peers := [];
    var todo := KeysOf(topo.nbr2if, i);
    while todo != {}
      invariant todo <= KeysOf(topo.nbr2if, i) && PeersSoFar(g, addresses, i, todo, peers)
    {
      var b :| b in todo;
      if topo.nbr2if[i][b].up {
        assert g.Up(i, b);
        PeerAdded(g, addresses, i, todo, peers, b);
        peers := peers + [PeerFor(addresses, i, b)];
      } else {
        PeerPassed(g, addresses, i, todo, peers, b);
      }
      todo := todo - {b};
    }
  }

  ghost predicate PeersSoFar(g: Network, addresses: seq<U32>, i: Node, todo: set<Node>, peers: seq<Peer>)
    requires g.InRange() && |g.kind| == |addresses|
  {
    && NoDup(peers)
    && forall p :: p in peers <==> exists b: Node :: b !in todo && g.Up(i, b) && p == PeerFor(addresses, i, b)
  }

  lemma PeerAdded(g: Network, addresses: seq<U32>, i: Node, todo: set<Node>, peers: seq<Peer>, b: Node)
    requires g.InRange() && |g.kind| == |addresses| <= U32_SIZE && PeersSoFar(g, addresses, i, todo, peers)
    requires b in todo && g.Up(i, b)
    ensures PeersSoFar(g, addresses, i, todo - {b}, peers + [PeerFor(addresses, i, b)])
  {
    hide Asn;
    var added := PeerFor(addresses, i, b);
    forall c: Node | g.Up(i, c) && PeerFor(addresses, i, c) == added ensures c == b {
      AsnInjective(c, b);
    }
    assert added !in peers;
    forall p
      ensures p in peers + [added] <==>
              exists c: Node :: c !in todo - {b} && g.Up(i, c) && p == PeerFor(addresses, i, c)
    {
      if c: Node :| c !in todo - {b} && g.Up(i, c) && p == PeerFor(addresses, i, c) {
        assert c == b || p in peers;
      }
      if p in peers {
        var c: Node :| c !in todo && g.Up(i, c) && p == PeerFor(addresses, i, c);
        assert c !in todo - {b};
      }
    }
  }

  lemma PeerPassed(g: Network, addresses: seq<U32>, i: Node, todo: set<Node>, peers: seq<Peer>, b: Node)
    requires g.InRange() && |g.kind| == |addresses| && PeersSoFar(g, addresses, i, todo, peers) && !g.Up(i, b)
    ensures PeersSoFar(g, addresses, i, todo - {b}, peers)
  {
    forall p ensures p in peers <==> exists c: Node :: c !in todo - {b} && g.Up(i, c) && p == PeerFor(addresses, i, c) {
      if p in peers {
        var c: Node :| c !in todo && g.Up(i, c) && p == PeerFor(addresses, i, c);
        assert c !in todo - {b};
      }
      if c: Node :| c !in todo - {b} && g.Up(i, c) && p == PeerFor(addresses, i, c) {
        assert c !in todo;
      }
    }
  }

  lemma AsnInjective(a: Node, b: Node)
    requires a < U32_SIZE && b < U32_SIZE && Asn(a) == Asn(b)
    ensures a == b
  {
  }

  lemma PeerIffUp(g: Network, addresses: seq<U32>, i: Node, j: Node, mine: seq<Peer>)
    requires g.InRange() && |g.kind| == |addresses| <= U32_SIZE && j < |g.kind| && PeersOf(g, addresses, i, mine)
    ensures multiset(mine)[PeerFor(addresses, i, j)] == if g.Up(i, j) then 1 else 0
  {
    hide Asn;
    var p := PeerFor(addresses, i, j);
    NoDupCount(mine, p);
    if p in mine {
      var b: Node :| g.Up(i, b) && p == PeerFor(addresses, i, b);
      AsnInjective(b, j);
    }
  }

  // Every peering is configured on both ends, with the two numbers swapped, and exactly once each.
  lemma PeersMirrored(g: Network, addresses: seq<U32>, i: Node, j: Node, mine: seq<Peer>, theirs: seq<Peer>)
    requires g.WellFormed() && |g.kind| == |addresses| <= U32_SIZE && i < |g.kind| && j < |g.kind|
    requires PeersOf(g, addresses, i, mine) && PeersOf(g, addresses, j, theirs)
    ensures var there, back := PeerFor(addresses, i, j), PeerFor(addresses, j, i);
            && there.localAsn == back.peerAsn && there.peerAsn == back.localAsn
            && multiset(mine)[there] == multiset(theirs)[back] == if g.Up(i, j) then 1 else 0
  {
    hide Asn, PeersOf;
    PeerIffUp(g, addresses, i, j, mine);
    PeerIffUp(g, addresses, j, i, theirs);
  }
}

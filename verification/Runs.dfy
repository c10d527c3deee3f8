/** Every run of link failures: what TakeDownLink keeps, and what it can never undo. */
module Runs {
  import opened Words
  import opened Sequences
  import opened Net
  import opened Bfs
  import opened Addressing
  import opened Topology
  import opened Delivery
  import opened Setup
  import Metrics

  // states[0] is what setup leaves; each call takes one state to the next.
  ghost predicate Run(states: seq<Snapshot>, calls: seq<(Node, Node)>) {
    && |states| == |calls| + 1
    && states[0].net.WellFormed() && Consistent(states[0])
    && forall i: nat :: i < |calls| ==> TakenDown(states[i], states[i + 1], calls[i].0, calls[i].1)
  }

  // ---- one call ----

  lemma StepFewer(s: Snapshot, t: Snapshot, a: Node, b: Node)
    requires TakenDown(s, t, a, b)
    ensures FewerLinks(s.net, t.net) && KeepsInterfaces(s.net, t.net)
    ensures s.net.Symmetric() ==> !t.net.Up(a, b) && !t.net.Up(b, a)
  {
    hide Consistent;
  }

  lemma StepWellFormed(s: Snapshot, t: Snapshot, a: Node, b: Node)
    requires TakenDown(s, t, a, b) && s.net.WellFormed()
    ensures t.net.WellFormed()
  {
    hide Consistent;
    var g, f := s.net, t.net;
    forall x: Node, y: Node
      ensures f.Up(x, y) ==> g.Up(x, y)
      ensures x in f.nbr && y in f.nbr[x] ==> f.nbr[x][y].(up := true) == At(g.nbr, x, y).(up := true)
    {
      assert At(f.nbr, x, y).(up := true) == At(g.nbr, x, y).(up := true);
    }
  }

  // A call that changes nothing leaves next hops and tables that still fit the links.
  lemma StepConsistent(s: Snapshot, t: Snapshot, a: Node, b: Node)
    requires TakenDown(s, t, a, b) && Consistent(s)
    ensures Consistent(t)
  {
    if !s.net.Up(a, b) {
      hide NodeIdToIp, Ports, Network.CorrectHops;
      forall n: Node, h: Node | t.net.IsHost(h) ensures t.net.CorrectHops(h, n, Hops(t.nextHop, n, h)) {
        SameLinksSameHops(s.net, t.net, h, n, Hops(s.nextHop, n, h));
      }
      hide TableAppended;
      forall n: Node | n < |t.net.kind| ensures TableAppended(t.net.nbr, n, RowsOf(t.nextHop, n), map[], t.tables[n]) {
        SameTable(s.net, t.net, n, RowsOf(t.nextHop, n), t.tables[n]);
      }
    }
  }

  lemma SameTable(g: Network, f: Network, n: Node, row: map<Node, seq<Node>>, table: Table)
    requires KeepsInterfaces(g, f) && TableAppended(g.nbr, n, row, map[], table)
    ensures TableAppended(f.nbr, n, row, map[], table)
  {
    hide Ports, Lists, KeepsInterfaces;
    var order :| Lists(order, row.Keys) && RowsAdded(g.nbr, n, row, order, map[], table);
    forall addr: U32 ensures Merged(f.nbr, n, row, order, addr) == Merged(g.nbr, n, row, order, addr) {
      SameMerged(g, f, n, row, order, addr);
    }
    assert RowsAdded(f.nbr, n, row, order, map[], table);
  }

  lemma {:induction false} SameMerged(g: Network, f: Network, n: Node, row: map<Node, seq<Node>>, order: seq<Node>,
                                      addr: U32)
    requires KeepsInterfaces(g, f)
    ensures Merged(f.nbr, n, row, order, addr) == Merged(g.nbr, n, row, order, addr)
  {
    hide KeepsInterfaces, PortList, NodeIdToIp;
    if order != [] {
      var k := |order| - 1;
      SameMerged(g, f, n, row, order[..k], addr);
      SamePorts(g, f, n, RowOf(row, order[k]));
    }
  }

  lemma SamePorts(g: Network, f: Network, n: Node, l: seq<Node>)
    requires KeepsInterfaces(g, f)
    ensures PortList(f.nbr, n, l) == PortList(g.nbr, n, l)
  {
    hide At;
    forall k | 0 <= k < |l| ensures At(f.nbr, n, l[k]).idx == At(g.nbr, n, l[k]).idx {
      assert At(f.nbr, n, l[k]).(up := true) == At(g.nbr, n, l[k]).(up := true);
    }
  }

  // ---- every run ----

  // In every state reached, next hops and tables are those of the links that are still up.
  lemma {:induction false} RunKeeps(states: seq<Snapshot>, calls: seq<(Node, Node)>, i: nat)
    requires Run(states, calls) && i < |states|
    ensures states[i].net.WellFormed() && Consistent(states[i])
  {
    if i > 0 {
      hide Consistent, Network.WellFormed, TakenDown;
      RunKeeps(states, calls, i - 1);
      assert TakenDown(states[i - 1], states[i - 1 + 1], calls[i - 1].0, calls[i - 1].1);
      StepWellFormed(states[i - 1], states[i], calls[i - 1].0, calls[i - 1].1);
      StepConsistent(states[i - 1], states[i], calls[i - 1].0, calls[i - 1].1);
    }
  }

  // Links only ever disappear, and interfaces keep their index, delay and rate.
  lemma {:induction false} RunFewer(states: seq<Snapshot>, calls: seq<(Node, Node)>, i: nat, j: nat)
    requires Run(states, calls) && i <= j < |states|
    ensures FewerLinks(states[i].net, states[j].net) && KeepsInterfaces(states[i].net, states[j].net)
  {
    if i < j {
      hide Consistent, Network.WellFormed, TakenDown, At;
      RunFewer(states, calls, i, j - 1);
      assert TakenDown(states[j - 1], states[j - 1 + 1], calls[j - 1].0, calls[j - 1].1);
      StepFewer(states[j - 1], states[j], calls[j - 1].0, calls[j - 1].1);
      var e, f, g := states[i].net, states[j - 1].net, states[j].net;
      forall x: Node, y: Node ensures At(g.nbr, x, y).(up := true) == At(e.nbr, x, y).(up := true) {
        assert At(f.nbr, x, y).(up := true) == At(e.nbr, x, y).(up := true);
        assert At(g.nbr, x, y).(up := true) == At(f.nbr, x, y).(up := true);
      }
    }
  }

  // Distances never decrease over a run, and what is cut off stays cut off.
  lemma DistancesNeverDecrease(states: seq<Snapshot>, calls: seq<(Node, Node)>, i: nat, j: nat, h: Node, n: Node,
                               e: nat)
    requires Run(states, calls) && i <= j < |states| && states[j].net.IsDist(h, n, e)
    ensures exists d: nat :: d <= e && states[i].net.IsDist(h, n, d)
  {
    RunFewer(states, calls, i, j);
    DistMonotone(states[i].net, states[j].net, h, n, e);
  }

  // After the k-th call neither direction of its link is ever used again.
  lemma NoDownLinkUsed(states: seq<Snapshot>, calls: seq<(Node, Node)>, k: nat, j: nat, h: Node)
    requires Run(states, calls) && k < |calls| && k < j < |states| && h < |states[j].net.kind|
    ensures calls[k].0 !in Hops(states[j].nextHop, calls[k].1, h)
    ensures calls[k].1 !in Hops(states[j].nextHop, calls[k].0, h)
  {
    hide Network.IsDist, TablesMatch;
    var (a, b) := calls[k];
    RunKeeps(states, calls, k);
    RunKeeps(states, calls, j);
    assert TakenDown(states[k], states[k + 1], a, b);
    StepFewer(states[k], states[k + 1], a, b);
    RunFewer(states, calls, k + 1, j);
    var g := states[j].net;
    assert !g.Up(a, b) && !g.Up(b, a);
    if g.IsHost(h) {
      assert g.CorrectHops(h, b, Hops(states[j].nextHop, b, h));
      assert g.CorrectHops(h, a, Hops(states[j].nextHop, a, h));
    }
  }

  // A state reached by any run agrees, row by row and up to the order in which entries were
  // found, with any state computed afresh from the same up links.
  lemma RunMatchesFresh(states: seq<Snapshot>, calls: seq<(Node, Node)>, i: nat, t: Snapshot, n: Node)
    requires Run(states, calls) && i < |states|
    requires Consistent(t) && SameLinks(states[i].net, t.net) && KeepsInterfaces(states[i].net, t.net)
    requires n < |t.net.kind|
    ensures |states[i].tables| == |t.tables| == |t.net.kind|
    ensures forall h: Node :: multiset(Hops(states[i].nextHop, n, h)) == multiset(Hops(t.nextHop, n, h))
    ensures forall addr: U32 :: multiset(Ports(states[i].tables[n], addr)) == multiset(Ports(t.tables[n], addr))
  {
    hide NodeIdToIp, Ports, Network.CorrectHops, TableAppended, KeepsInterfaces;
    RunKeeps(states, calls, i);
    var s := states[i];
    forall h: Node ensures multiset(Hops(s.nextHop, n, h)) == multiset(Hops(t.nextHop, n, h)) {
      if s.net.IsHost(h) {
        SameLinksSameHops(s.net, t.net, h, n, Hops(s.nextHop, n, h));
        HopsUnique(t.net, h, n, Hops(s.nextHop, n, h), Hops(t.nextHop, n, h));
      }
    }
    SameTable(s.net, t.net, n, RowsOf(s.nextHop, n), s.tables[n]);
    forall h: Node ensures multiset(RowOf(RowsOf(s.nextHop, n), h)) == multiset(RowOf(RowsOf(t.nextHop, n), h)) {
      assert multiset(Hops(s.nextHop, n, h)) == multiset(Hops(t.nextHop, n, h));
    }
    SameRows(t.net.nbr, n, RowsOf(s.nextHop, n), RowsOf(t.nextHop, n), s.tables[n], t.tables[n]);
  }

  // Tables made of next hops that agree up to order agree up to order, whatever the destinations' order.
  lemma SameRows(nbr: Links, n: Node, r: map<Node, seq<Node>>, q: map<Node, seq<Node>>, a: Table, b: Table)
    requires TableAppended(nbr, n, r, map[], a) && TableAppended(nbr, n, q, map[], b)
    requires forall h: Node :: multiset(RowOf(r, h)) == multiset(RowOf(q, h))
    ensures forall addr: U32 :: multiset(Ports(a, addr)) == multiset(Ports(b, addr))
  {
    hide Ports, Merged;
    var o :| Lists(o, r.Keys) && RowsAdded(nbr, n, r, o, map[], a);
    var p :| Lists(p, q.Keys) && RowsAdded(nbr, n, q, p, map[], b);
    forall addr: U32 ensures multiset(Ports(a, addr)) == multiset(Ports(b, addr)) {
      EmptyPorts(addr);
      assert Ports(a, addr) == [] + Merged(nbr, n, r, o, addr) && Ports(b, addr) == [] + Merged(nbr, n, q, p, addr);
      forall h: Node ensures Bag(nbr, n, r, o, addr, h) == Bag(nbr, n, q, p, addr, h) {
        SameBag(nbr, n, r, o, q, p, addr, h);
      }
      SameBags(nbr, n, r, o, q, p, addr);
    }
  }

  lemma SameBag(nbr: Links, n: Node, r: map<Node, seq<Node>>, o: seq<Node>, q: map<Node, seq<Node>>, p: seq<Node>,
                addr: U32, h: Node)
    requires Lists(o, r.Keys) && Lists(p, q.Keys) && multiset(RowOf(r, h)) == multiset(RowOf(q, h))
    ensures Bag(nbr, n, r, o, addr, h) == Bag(nbr, n, q, p, addr, h)
  {
    hide NodeIdToIp, PortList;
    PortListMultiset(nbr, n, RowOf(r, h), RowOf(q, h));
    PortListEmpty(nbr, n);
  }

  // What destination h contributes to the row of addr when it is in the order o.
  ghost function Bag(nbr: Links, n: Node, row: map<Node, seq<Node>>, o: seq<Node>, addr: U32, h: Node): multiset<U32> {
    if h in o then multiset(PortsFor(nbr, n, row, addr, h)) else multiset{}
  }

  // Taking a destination out of the order takes its contribution out of the row.
  lemma {:induction false} MergedTakeOut(nbr: Links, n: Node, row: map<Node, seq<Node>>, o: seq<Node>, addr: U32,
                                         j: nat)
    requires j < |o|
    ensures multiset(Merged(nbr, n, row, o, addr)) ==
            multiset(Merged(nbr, n, row, o[..j] + o[j + 1..], addr)) + multiset(PortsFor(nbr, n, row, addr, o[j]))
    decreases |o|
  {
    hide PortsFor, Merged;
    var k := |o| - 1;
    var s := o[..k];
    assert o == s + [o[k]];
    MergedSnoc(nbr, n, row, s, addr, o[k]);
    if j == k {
      assert o[..j] + o[j + 1..] == s;
    } else {
      var rest := s[..j] + s[j + 1..];
      assert o[..j] + o[j + 1..] == rest + [o[k]] && s[j] == o[j];
      MergedTakeOut(nbr, n, row, s, addr, j);
      MergedSnoc(nbr, n, row, rest, addr, o[k]);
      BagSwap(Merged(nbr, n, row, s, addr), Merged(nbr, n, row, rest, addr), PortsFor(nbr, n, row, addr, o[j]),
              PortsFor(nbr, n, row, addr, o[k]));
    }
  }

  lemma BagSwap<T>(a: seq<T>, b: seq<T>, c: seq<T>, d: seq<T>)
    requires multiset(a) == multiset(b) + multiset(c)
    ensures multiset(a + d) == multiset(b + d) + multiset(c)
  {
  }

  lemma MergedSnoc(nbr: Links, n: Node, row: map<Node, seq<Node>>, o: seq<Node>, addr: U32, h: Node)
    ensures Merged(nbr, n, row, o + [h], addr) == Merged(nbr, n, row, o, addr) + PortsFor(nbr, n, row, addr, h)
  {
    assert (o + [h])[..|o|] == o;
  }

  lemma {:induction false} SameBags(nbr: Links, n: Node, r: map<Node, seq<Node>>, o: seq<Node>, q: map<Node, seq<Node>>,
                                    p: seq<Node>, addr: U32)
    requires NoDup(o) && NoDup(p)
    requires forall h: Node :: Bag(nbr, n, r, o, addr, h) == Bag(nbr, n, q, p, addr, h)
    ensures multiset(Merged(nbr, n, r, o, addr)) == multiset(Merged(nbr, n, q, p, addr))
    decreases |o| + |p|
  {
    if o == [] && p == [] {
    } else if o != [] {
      DropOne(nbr, n, r, o, q, p, addr);
    } else {
      DropOne(nbr, n, q, p, r, o, addr);
    }
  }

  // Drop the first destination of o, and from p if it is there.
  lemma {:induction false} DropOne(nbr: Links, n: Node, r: map<Node, seq<Node>>, o: seq<Node>, q: map<Node, seq<Node>>,
                                   p: seq<Node>, addr: U32)
    requires NoDup(o) && NoDup(p) && o != []
    requires forall h: Node :: Bag(nbr, n, r, o, addr, h) == Bag(nbr, n, q, p, addr, h)
    ensures multiset(Merged(nbr, n, r, o, addr)) == multiset(Merged(nbr, n, q, p, addr))
    decreases |o| + |p|, 0
  {
    hide PortsFor, Merged, Bag;
    var x := o[0];
    assert x in o;
    var o' := o[..0] + o[1..];
    MergedTakeOut(nbr, n, r, o, addr, 0);
    BagDrop(nbr, n, r, o, addr, 0);
    var p' := p;
    if x in p {
      var j :| 0 <= j < |p| && p[j] == x;
      p' := p[..j] + p[j + 1..];
      MergedTakeOut(nbr, n, q, p, addr, j);
      BagDrop(nbr, n, q, p, addr, j);
    } else {
      NoBag(nbr, n, q, p, addr, x);
    }
    forall h: Node ensures Bag(nbr, n, r, o', addr, h) == Bag(nbr, n, q, p', addr, h) {
      assert Bag(nbr, n, r, o, addr, h) == Bag(nbr, n, q, p, addr, h);
    }
    SameBags(nbr, n, r, o', q, p', addr);
    assert Bag(nbr, n, r, o, addr, x) == Bag(nbr, n, q, p, addr, x);
  }

  lemma NoBag(nbr: Links, n: Node, row: map<Node, seq<Node>>, o: seq<Node>, addr: U32, x: Node)
    requires x !in o
    ensures Bag(nbr, n, row, o, addr, x) == multiset{}
  {
  }

  lemma BagDrop(nbr: Links, n: Node, row: map<Node, seq<Node>>, o: seq<Node>, addr: U32, j: nat)
    requires NoDup(o) && j < |o|
    ensures var r := o[..j] + o[j + 1..];
            NoDup(r) && forall h: Node :: Bag(nbr, n, row, r, addr, h) ==
                                          if h == o[j] then multiset{} else Bag(nbr, n, row, o, addr, h)
    ensures Bag(nbr, n, row, o, addr, o[j]) == multiset(PortsFor(nbr, n, row, addr, o[j]))
  {
    hide PortsFor;
    DropMembers(o, j);
    assert o[j] in o;
  }

  lemma DropMembers(o: seq<Node>, j: nat)
    requires NoDup(o) && j < |o|
    ensures var r := o[..j] + o[j + 1..]; NoDup(r) && forall h :: h in r <==> h in o && h != o[j]
  {
    var r := o[..j] + o[j + 1..];
    forall h ensures h in r <==> h in o && h != o[j] {
      if h in o && h != o[j] {
        var i :| 0 <= i < |o| && o[i] == h;
        assert r[if i < j then i else i - 1] == h;
      }
      if h in r {
        var i :| 0 <= i < |r| && r[i] == h;
        assert o[if i < j then i else i + 1] == h;
      }
    }
  }

  lemma {:induction false} PortListMultiset(nbr: Links, n: Node, l: seq<Node>, k: seq<Node>)
    requires multiset(l) == multiset(k)
    ensures multiset(PortList(nbr, n, l)) == multiset(PortList(nbr, n, k))
  {
    hide PortList;
    if l == [] {
      assert |multiset(k)| == 0;
      assert k == [];
    } else {
      var j := SamePlace(l, k);
      var q := k[..j] + k[j + 1..];
      TakeOut(nbr, n, l, 0);
      TakeOut(nbr, n, k, j);
      assert l[..0] + l[1..] == l[1..];
      hide At;
      PortListMultiset(nbr, n, l[1..], q);
    }
  }

  lemma SamePlace(l: seq<Node>, k: seq<Node>) returns (j: nat)
    requires multiset(l) == multiset(k) && l != []
    ensures j < |k| && k[j] == l[0]
  {
    assert l[0] in multiset(l) && l[0] in k;
    j :| j < |k| && k[j] == l[0];
  }

  // Taking one entry out of a list takes its port out of the list's ports.
  lemma TakeOut(nbr: Links, n: Node, k: seq<Node>, j: nat)
    requires j < |k|
    ensures multiset(k[..j] + k[j + 1..]) == multiset(k) - multiset{k[j]}
    ensures multiset(PortList(nbr, n, k)) == multiset(PortList(nbr, n, k[..j] + k[j + 1..])) +
            multiset{At(nbr, n, k[j]).idx}
  {
    hide PortList;
    assert k == k[..j] + [k[j]] + k[j + 1..];
    PortListAppend(nbr, n, k[..j], k[j + 1..]);
    PortListAppend(nbr, n, k[..j] + [k[j]], k[j + 1..]);
    PortListSnoc(nbr, n, k[..j], k[j]);
  }

  lemma PortListAppend(nbr: Links, n: Node, l: seq<Node>, k: seq<Node>)
    ensures PortList(nbr, n, l + k) == PortList(nbr, n, l) + PortList(nbr, n, k)
  {
  }

  // In every state reached, every packet for a reachable host is delivered in its hop distance.
  lemma RunDelivers(states: seq<Snapshot>, calls: seq<(Node, Node)>, i: nat, h: Node, w: seq<Node>, d: nat)
    requires Run(states, calls) && i < |states| && states[i].net.IsHost(h) && OwnAddress(states[i].net, h)
    requires Forwarded(states[i], h, w) && states[i].net.IsDist(h, w[0], d)
    ensures |w| <= d + 1 && NoDup(w)
    ensures forall k :: 0 < k < |w| ==> states[i].net.Up(w[k - 1], w[k])
    ensures forall k :: 0 < k < |w| && w[k] != h ==> states[i].net.IsSwitch(w[k])
    ensures w[|w| - 1] == h <==> |w| == d + 1
    ensures w[|w| - 1] != h ==> CanSend(states[i], h, w[|w| - 1])
  {
    hide *;
    RunKeeps(states, calls, i);
    PacketDelivered(states[i], h, w, d);
  }

  // In every state reached, two nodes are equally far from each other whichever end is asked.
  lemma RunSymmetric(states: seq<Snapshot>, calls: seq<(Node, Node)>, i: nat, a: Node, b: Node, d: nat)
    requires Run(states, calls) && i < |states|
    ensures states[i].net.IsDist(a, b, d) <==> states[i].net.IsDist(b, a, d)
  {
    RunKeeps(states, calls, i);
    DistSymmetric(states[i].net, a, b, d);
  }

  // Set-up followed by any sequence of link failures is such a run, with the matrices in pairs.
  method SetupThenFail(topo: TopologyState, nodes: NodeContainer, links: seq<LinkSpec>, calls: seq<(Node, Node)>)
    returns (ghost states: seq<Snapshot>, ghost pairs: seq<Pairs>)
    requires topo.nbr2if == map[] && topo.nextHop == map[]
    requires topo.pairDelay == map[] && topo.pairTxDelay == map[] && topo.pairBw == map[]
    requires nodes.table == EmptyTables(|nodes.kind|) && |nodes.kind| <= U32_SIZE
    requires SpecsOk(links, |nodes.kind|) && 2 * |links| < 0xffff_ffff
    modifies topo, nodes
    ensures RecordedRun(states, calls, topo.packetPayloadSize, pairs) && Built(states[0].net, links)
    ensures states[|calls|] == Snapshot(topo.Graph(nodes), topo.nextHop, nodes.table)
    ensures pairs[|calls|] == topo.PairsNow()
  {
    hide Consistent, Network.WellFormed, TakenDown, Built, PairsRecorded, Run;
    SetupRouting(topo, nodes, links);
    states := [Snapshot(topo.Graph(nodes), topo.nextHop, nodes.table)];
    pairs := [topo.PairsNow()];
    RunStart(states[0]);
    ghost var payload := topo.packetPayloadSize;
    for i := 0 to |calls|
      invariant topo.Valid(nodes) && nodes.Valid()
      invariant |states| == |pairs| == i + 1 && payload == topo.packetPayloadSize
      invariant RecordedRun(states, calls[..i], payload, pairs) && Built(states[0].net, links)
      invariant states[i] == Snapshot(topo.Graph(nodes), topo.nextHop, nodes.table) && pairs[i] == topo.PairsNow()
    {
      topo.TakeDownLink(nodes, calls[i].0, calls[i].1);
      ghost var s, p := Snapshot(topo.Graph(nodes), topo.nextHop, nodes.table), topo.PairsNow();
      RecordedRunSnoc(states, calls[..i], payload, pairs, s, p, calls[i]);
      states, pairs := states + [s], pairs + [p];
      assert calls[..i + 1] == calls[..i] + [calls[i]];
    }
    assert calls[..|calls|] == calls;
  }

  lemma RunSnoc(states: seq<Snapshot>, calls: seq<(Node, Node)>, t: Snapshot, call: (Node, Node))
    requires Run(states, calls) && TakenDown(states[|calls|], t, call.0, call.1)
    ensures Run(states + [t], calls + [call])
  {
    hide Consistent, Network.WellFormed, TakenDown;
    var s, c := states + [t], calls + [call];
    forall i: nat | i < |c| ensures TakenDown(s[i], s[i + 1], c[i].0, c[i].1) {
      if i < |calls| {
        assert TakenDown(states[i], states[i + 1], calls[i].0, calls[i].1);
      }
    }
  }

  lemma RunStart(s: Snapshot)
    requires s.net.WellFormed() && Consistent(s)
    ensures Run([s], [])
  {
  }

  // ---- the delay matrices over a run ----

  // A call on a link that is up records the matrices anew over the old ones; another leaves them.
  ghost predicate RecordedAnew(g: Network, f: Network, call: (Node, Node), payload: U32, was: Pairs, now: Pairs) {
    if g.Up(call.0, call.1) then PairsRecorded(f, payload, was, now, |f.kind|) else now == was
  }

  // A run with the matrices in each of its states, first recorded at set-up.
  ghost predicate RecordedRun(states: seq<Snapshot>, calls: seq<(Node, Node)>, payload: U32, pairs: seq<Pairs>) {
    && Run(states, calls) && |pairs| == |states|
    && PairsRecorded(states[0].net, payload, Pairs(map[], map[], map[]), pairs[0], |states[0].net.kind|)
    && forall i: nat :: i < |calls| ==>
         RecordedAnew(states[i].net, states[i + 1].net, calls[i], payload, pairs[i], pairs[i + 1])
  }

  lemma RecordedRunSnoc(states: seq<Snapshot>, calls: seq<(Node, Node)>, payload: U32, pairs: seq<Pairs>, t: Snapshot,
                        now: Pairs, call: (Node, Node))
    requires RecordedRun(states, calls, payload, pairs) && TakenDown(states[|calls|], t, call.0, call.1)
    requires RecordedAnew(states[|calls|].net, t.net, call, payload, pairs[|calls|], now)
    ensures RecordedRun(states + [t], calls + [call], payload, pairs + [now])
  {
    hide TakenDown, RecordedAnew, PairsRecorded, Consistent, Network.WellFormed;
    RunSnoc(states, calls, t, call);
    var s, c, p := states + [t], calls + [call], pairs + [now];
    forall i: nat | i < |c| ensures RecordedAnew(s[i].net, s[i + 1].net, c[i], payload, p[i], p[i + 1]) {
      if i < |calls| {
        assert RecordedAnew(states[i].net, states[i + 1].net, calls[i], payload, pairs[i], pairs[i + 1]);
      }
    }
  }

  // What is cut off stays cut off.
  lemma UnreachableLater(states: seq<Snapshot>, calls: seq<(Node, Node)>, i: nat, j: nat, h: Node, n: Node)
    requires Run(states, calls) && i <= j < |states| && states[j].net.Reachable(h, n)
    ensures states[i].net.Reachable(h, n)
  {
    hide Run, Network.Reachable, Network.IsDist;
    ReachableIffDist(states[j].net, h, n);
    var e: nat :| states[j].net.IsDist(h, n, e);
    DistancesNeverDecrease(states, calls, i, j, h, n, e);
    ReachableIffDist(states[i].net, h, n);
  }

  // While links keep their attributes, so does the measure of a walk.
  lemma {:induction false} SameMetric(g: Network, f: Network, payload: U32, p: seq<Node>)
    requires KeepsInterfaces(g, f)
    ensures PathMetric(f.nbr, payload, p) == PathMetric(g.nbr, payload, p)
    decreases |p|
  {
    hide TxTime, KeepsInterfaces;
    if |p| > 1 {
      SameMetric(g, f, payload, p[..|p| - 1]);
      SameAttributes(g, f, p[|p| - 2], p[|p| - 1]);
    }
  }

  lemma SameAttributes(g: Network, f: Network, a: Node, b: Node)
    requires KeepsInterfaces(g, f)
    ensures At(f.nbr, a, b).delay == At(g.nbr, a, b).delay && At(f.nbr, a, b).bw == At(g.nbr, a, b).bw
  {
    assert At(f.nbr, a, b).(up := true) == At(g.nbr, a, b).(up := true);
  }

  lemma SameRecorded(g: Network, f: Network, payload: U32, h: Node, n: Node, m: Metric)
    requires SameLinks(g, f) && KeepsInterfaces(g, f) && Recorded(g, payload, h, n, m)
    ensures Recorded(f, payload, h, n, m)
  {
    hide PathMetric, KeepsInterfaces;
    var p :| g.Shortest(h, n, p) && PathMetric(g.nbr, payload, p) == m;
    forall w ensures g.WalkTo(h, n, w) <==> f.WalkTo(h, n, w) {
      SameWalk(g, f, h, n, w);
    }
    SameMetric(g, f, payload, p);
  }

  lemma SameWalk(g: Network, f: Network, h: Node, n: Node, w: seq<Node>)
    requires SameLinks(g, f)
    ensures g.WalkTo(h, n, w) <==> f.WalkTo(h, n, w)
  {
    forall i: nat | i + 1 < |w| ensures g.Step(w, i) <==> f.Step(w, i) {
    }
  }

  // One call: an entry of a node still reached is measured on the links left, any other is kept.
  lemma EntryStep(s: Snapshot, t: Snapshot, call: (Node, Node), payload: U32, was: Pairs, now: Pairs, h: Node, n: Node)
    requires TakenDown(s, t, call.0, call.1) && RecordedAnew(s.net, t.net, call, payload, was, now) && s.net.IsHost(h)
    ensures !t.net.Reachable(h, n) ==> now.At(n, h) == was.At(n, h)
    ensures t.net.Reachable(h, n) && Recorded(s.net, payload, h, n, was.At(n, h)) ==>
            Recorded(t.net, payload, h, n, now.At(n, h))
  {
    hide Consistent, Network.Reachable, Recorded, Pairs.At, KeepsInterfaces;
    if s.net.Up(call.0, call.1) {
      assert ColumnRecorded(t.net, payload, was, now, h);
    } else if Recorded(s.net, payload, h, n, was.At(n, h)) {
      SameRecorded(s.net, t.net, payload, h, n, was.At(n, h));
    }
  }

  // In every state the entry of a node that is reached is measured along a shortest walk on the
  // links of that state.
  lemma {:induction false} EntryCurrent(states: seq<Snapshot>, calls: seq<(Node, Node)>, payload: U32,
                                        pairs: seq<Pairs>, h: Node, n: Node, j: nat)
    requires RecordedRun(states, calls, payload, pairs) && j < |states| && states[0].net.IsHost(h)
    requires states[j].net.Reachable(h, n)
    ensures Recorded(states[j].net, payload, h, n, pairs[j].At(n, h))
  {
    hide TakenDown, RecordedAnew, Network.Reachable, Recorded, Pairs.At, Consistent, Network.WellFormed;
    if j == 0 {
      assert ColumnRecorded(states[0].net, payload, Pairs(map[], map[], map[]), pairs[0], h);
    } else {
      UnreachableLater(states, calls, j - 1, j, h, n);
      EntryCurrent(states, calls, payload, pairs, h, n, j - 1);
      CallAt(states, calls, payload, pairs, h, j - 1);
      EntryStep(states[j - 1], states[j], calls[j - 1], payload, pairs[j - 1], pairs[j], h, n);
    }
  }

  lemma CallAt(states: seq<Snapshot>, calls: seq<(Node, Node)>, payload: U32, pairs: seq<Pairs>, h: Node, i: nat)
    requires RecordedRun(states, calls, payload, pairs) && i < |calls| && states[0].net.IsHost(h)
    ensures TakenDown(states[i], states[i + 1], calls[i].0, calls[i].1) && states[i].net.IsHost(h)
    ensures RecordedAnew(states[i].net, states[i + 1].net, calls[i], payload, pairs[i], pairs[i + 1])
  {
    hide TakenDown, RecordedAnew, PairsRecorded, Consistent, Network.WellFormed;
    RunFewer(states, calls, 0, i);
  }

  // The entry of a node that is cut off in state k + 1 is frozen at its value in state k.
  lemma {:induction false} EntryFrozen(states: seq<Snapshot>, calls: seq<(Node, Node)>, payload: U32,
                                       pairs: seq<Pairs>, h: Node, n: Node, k: nat, j: nat)
    requires RecordedRun(states, calls, payload, pairs) && k <= j < |states| && states[0].net.IsHost(h)
    requires k < j ==> !states[k + 1].net.Reachable(h, n)
    ensures pairs[j].At(n, h) == pairs[k].At(n, h)
    decreases j
  {
    hide TakenDown, RecordedAnew, Network.Reachable, Recorded, Pairs.At, PairsRecorded, Consistent;
    if k < j {
      EntryFrozen(states, calls, payload, pairs, h, n, k, j - 1);
      if states[j].net.Reachable(h, n) {
        UnreachableLater(states, calls, k + 1, j, h, n);
      }
      CallAt(states, calls, payload, pairs, h, j - 1);
      EntryStep(states[j - 1], states[j], calls[j - 1], payload, pairs[j - 1], pairs[j], h, n);
    }
  }

  // The whole account of the matrices: in state j the entry of n for host h is measured along a
  // shortest walk on the links of the last state k <= j in which h reached n, and is zero if it
  // never did.
  lemma EntryLastSeen(states: seq<Snapshot>, calls: seq<(Node, Node)>, payload: U32, pairs: seq<Pairs>, h: Node,
                      n: Node, j: nat)
    requires RecordedRun(states, calls, payload, pairs) && j < |states| && states[0].net.IsHost(h)
    ensures forall k: nat :: k <= j && states[k].net.Reachable(h, n) &&
                             (k < j ==> !states[k + 1].net.Reachable(h, n)) ==>
              Recorded(states[k].net, payload, h, n, pairs[j].At(n, h))
    ensures !states[0].net.Reachable(h, n) ==> pairs[j].At(n, h) == Metric(0, 0, 0)
  {
    hide Run, Network.Reachable, Recorded, RecordedAnew, PairsRecorded;
    forall k: nat | k <= j && states[k].net.Reachable(h, n) && (k < j ==> !states[k + 1].net.Reachable(h, n))
      ensures Recorded(states[k].net, payload, h, n, pairs[j].At(n, h))
    {
      EntryCurrent(states, calls, payload, pairs, h, n, k);
      EntryFrozen(states, calls, payload, pairs, h, n, k, j);
    }
    if !states[0].net.Reachable(h, n) {
      NeverSeen(states, calls, payload, pairs, h, n, j);
    }
  }

  // What stands in the matrices for a node that is reached: the sums over one shortest walk of link
  // delays and serialization times, modulo 2^64, and the rate of its slowest link.
  lemma EntryMeans(states: seq<Snapshot>, calls: seq<(Node, Node)>, payload: U32, pairs: seq<Pairs>, h: Node,
                   n: Node, j: nat)
    requires RecordedRun(states, calls, payload, pairs) && j < |states| && states[0].net.IsHost(h)
    requires states[j].net.Reachable(h, n)
    ensures var g, m := states[j].net, pairs[j];
            exists p :: g.Shortest(h, n, p) &&
              Stored(m.delay, n, h, Wrap64(Metrics.PathDelay(g.nbr, p))) &&
              Stored(m.tx, n, h, Wrap64(Metrics.PathTx(g.nbr, payload, p))) &&
              exists bw: U64 :: Stored(m.bw, n, h, bw) && Metrics.Bottleneck(g.nbr, p, bw)
  {
    hide Run, PathMetric, RecordedAnew, PairsRecorded, Metrics.PathDelay, Metrics.PathTx, Metrics.Bottleneck, Wrap64;
    EntryCurrent(states, calls, payload, pairs, h, n, j);
    var g, m := states[j].net, pairs[j];
    var p :| g.Shortest(h, n, p) && PathMetric(g.nbr, payload, p) == m.At(n, h);
    Metrics.PathMetricMeaning(g.nbr, payload, p);
    assert Stored(m.bw, n, h, m.At(n, h).bw);
  }

  // m[i][j] == v, and entries that are not there count as 0.
  ghost predicate Stored(m: Matrix, i: Node, j: Node, v: U64) {
    v == if i in m && j in m[i] then m[i][j] else 0
  }

  lemma NeverSeen(states: seq<Snapshot>, calls: seq<(Node, Node)>, payload: U32, pairs: seq<Pairs>, h: Node, n: Node,
                  j: nat)
    requires RecordedRun(states, calls, payload, pairs) && j < |states| && states[0].net.IsHost(h)
    requires !states[0].net.Reachable(h, n)
    ensures pairs[j].At(n, h) == Metric(0, 0, 0)
  {
    hide Run, Network.Reachable, Recorded, RecordedAnew;
    assert ColumnRecorded(states[0].net, payload, Pairs(map[], map[], map[]), pairs[0], h);
    if j > 0 && states[1].net.Reachable(h, n) {
      UnreachableLater(states, calls, 0, 1, h, n);
    }
    EntryFrozen(states, calls, payload, pairs, h, n, 0, j);
  }

  // After the matrices are recorded anew over old ones, an entry is measured along a shortest walk
  // exactly if its node can still be reached; otherwise it is the old entry.
  lemma FreshIffReachable(g: Network, payload: U32, was: Pairs, now: Pairs, h: Node, n: Node)
    requires PairsRecorded(g, payload, was, now, |g.kind|) && g.IsHost(h)
    ensures Recorded(g, payload, h, n, now.At(n, h)) <==> g.Reachable(h, n)
    ensures !g.Reachable(h, n) ==> now.At(n, h) == was.At(n, h)
  {
    hide Pairs.At;
    assert ColumnRecorded(g, payload, was, now, h);
    if Recorded(g, payload, h, n, now.At(n, h)) {
      var p :| g.Shortest(h, n, p) && PathMetric(g.nbr, payload, p) == now.At(n, h);
      assert g.WalkTo(h, n, p);
    }
  }

  // Two hosts on one link of delay 7; up says whether it is up.
  function TwoHosts(up: bool): Network {
    Network([Host, Host], map[0 := map[1 := Interface(1, up, 7, 8)], 1 := map[0 := Interface(1, up, 7, 8)]])
  }

  // Taking that link down leaves its delay recorded between hosts that no longer reach each other.
  lemma StaleExample(payload: U32, was: Pairs, now: Pairs)
    requires PairsRecorded(TwoHosts(true), payload, Pairs(map[], map[], map[]), was, 2)
    requires PairsRecorded(TwoHosts(false), payload, was, now, 2)
    ensures Without(TwoHosts(true), TwoHosts(false), 0, 1)
    ensures now.At(1, 0).delay == 7 && !TwoHosts(false).Reachable(0, 1)
    ensures !Recorded(TwoHosts(false), payload, 0, 1, now.At(1, 0))
  {
    hide PairsRecorded, Recorded, PathMetric, TwoHosts, Pairs.At;
    var none := Pairs(map[], map[], map[]);
    TwoHostsFacts();
    FreshIffReachable(TwoHosts(true), payload, none, was, 0, 1);
    OneLinkDelay(payload, was.At(1, 0));
    FreshIffReachable(TwoHosts(false), payload, was, now, 0, 1);
  }

  lemma TwoHostsFacts()
    ensures forall up :: |TwoHosts(up).kind| == 2 && TwoHosts(up).IsHost(0)
    ensures TwoHosts(true).Reachable(0, 1) && !TwoHosts(false).Reachable(0, 1)
    ensures Without(TwoHosts(true), TwoHosts(false), 0, 1)
  {
    TwoHostsUp();
    TwoHostsDown();
    hide Network.WalkTo;
    assert TwoHosts(true).Reachable(0, 1);
    hide Network.Reachable, TwoHosts;
    TwoHostsLinks();
  }

  lemma TwoHostsDown()
    ensures !TwoHosts(false).Reachable(0, 1)
  {
    hide Network.Expands;
    var f := TwoHosts(false);
    forall w: seq<Node> ensures !f.WalkTo(0, 1, w) {
      if |w| > 1 {
        assert !f.Step(w, 0);
      }
    }
  }

  lemma TwoHostsLinks()
    ensures forall up :: |TwoHosts(up).kind| == 2 && TwoHosts(up).IsHost(0)
    ensures Without(TwoHosts(true), TwoHosts(false), 0, 1)
  {
    var g, f := TwoHosts(true), TwoHosts(false);
    forall x: Node, y: Node
      ensures f.Up(x, y) <==> g.Up(x, y) && !(x == 0 && y == 1) && !(x == 1 && y == 0)
      ensures At(f.nbr, x, y).(up := true) == At(g.nbr, x, y).(up := true)
    {
      if x == 0 || x == 1 {
        assert x in g.nbr && x in f.nbr;
      }
    }
  }

  lemma TwoHostsUp()
    ensures TwoHosts(true).WalkTo(0, 1, [0, 1])
  {
    assert TwoHosts(true).Step([0, 1], 0);
  }

  lemma OneLinkDelay(payload: U32, m: Metric)
    requires Recorded(TwoHosts(true), payload, 0, 1, m)
    ensures m.delay == 7
  {
    hide TxTime;
    var g := TwoHosts(true);
    assert g.Step([0, 1], 0) && g.WalkTo(0, 1, [0, 1]);
    var p :| g.Shortest(0, 1, p) && PathMetric(g.nbr, payload, p) == m;
    assert p == [0] + [1];
    PathMetricExtend(g.nbr, payload, [0], 1);
    assert PathMetric(g.nbr, payload, [0]) == START;
  }
}

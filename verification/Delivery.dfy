/** What the forwarding tables do to a packet: whichever equal-cost port each node picks, it
    reaches the destination host in exactly its hop distance. */
module Delivery {
  import opened Words
  import opened Sequences
  import opened Net
  import opened Bfs
  import opened Addressing
  import opened Topology

  // n may put a packet for host h on the device that leads to m.
  ghost predicate Sends(s: Snapshot, h: Node, n: Node, m: Node) {
    && n < |s.net.kind| && n < |s.tables| && h < U32_SIZE
    && n in s.net.nbr && m in s.net.nbr[n]
    && s.net.nbr[n][m].idx in Ports(s.tables[n], NodeIdToIp(h))
  }

  // w is what a packet for h visits, under some choice of port at each node.
  ghost predicate Forwarded(s: Snapshot, h: Node, w: seq<Node>) {
    |w| > 0 && forall i: nat :: i + 1 < |w| ==> Sends(s, h, w[i], w[i + 1])
  }

  // The last inner node of a shortest walk is a next hop.
  lemma HopExists(g: Network, h: Node, n: Node, d: nat)
    requires g.IsDist(h, n, d) && d > 0
    ensures exists m :: g.IsHop(h, n, m)
  {
    var p :| g.Shortest(h, n, p) && |p| == d + 1;
    var r, m := p[..d], p[d - 1];
    assert g.Step(p, d - 1);
    forall i: nat | i + 1 < |r| ensures g.Step(r, i) {
      assert g.Step(p, i);
    }
    forall w | g.WalkTo(h, m, w) ensures |r| <= |w| {
      ShortestExists(g, h, m, w);
      var q :| g.Shortest(h, m, q) && |q| <= |w|;
      if m == h {
        DistZero(g, h, h);
        assert g.IsDist(h, h, |q| - 1);
        DistUnique(g, h, h, 0, |q| - 1);
      }
      WalkExtend(g, h, m, n, q);
      assert g.WalkTo(h, n, q + [n]);
    }
    assert g.Shortest(h, m, r);
    assert g.IsDist(h, m, d - 1) && g.IsHop(h, n, m);
  }

  // A node has a next hop towards h exactly when it is another node that h reaches.
  lemma HopIffReachable(g: Network, h: Node, n: Node)
    ensures (exists m :: g.IsHop(h, n, m)) <==> n != h && g.Reachable(h, n)
  {
    ReachableIffDist(g, h, n);
    DistZero(g, h, n);
    if n != h && g.Reachable(h, n) {
      var d: nat :| g.IsDist(h, n, d);
      HopExists(g, h, n, d);
    }
    if m :| g.IsHop(h, n, m) {
      var d: nat :| g.IsDist(h, m, d) && g.IsDist(h, n, d + 1);
    }
  }

  // The ports in the tables are exactly those of the devices towards the next hops.
  lemma SendsIffHop(s: Snapshot, h: Node, n: Node, m: Node)
    requires Consistent(s) && s.net.WellFormed() && s.net.IsHost(h) && OwnAddress(s.net, h) && n < |s.net.kind|
    ensures Sends(s, h, n, m) <==> s.net.IsHop(h, n, m)
  {
    hide NodeIdToIp, Ports, Network.IsDist, TableAppended;
    OwnRow(s, h, n);
    var g, l := s.net, Hops(s.nextHop, n, h);
    assert g.CorrectHops(h, n, l);
    var ports := Ports(s.tables[n], NodeIdToIp(h));
    assert ports == PortList(g.nbr, n, l);
    if Sends(s, h, n, m) {
      var k :| 0 <= k < |ports| && ports[k] == g.nbr[n][m].idx;
      assert l[k] in l && g.IsHop(h, n, l[k]);
      assert g.Up(l[k], n) && g.Up(n, l[k]);
      assert l[k] == m;
    }
    if g.IsHop(h, n, m) {
      assert g.Up(m, n) && g.Up(n, m) && m in l;
      var k :| 0 <= k < |l| && l[k] == m;
      assert ports[k] == g.nbr[n][m].idx;
    }
  }

  ghost predicate CanSend(s: Snapshot, h: Node, n: Node) {
    exists m :: Sends(s, h, n, m)
  }

  // The i-th node visited is i links closer to h than the first, and is h or a switch.
  ghost predicate OnCourse(g: Network, h: Node, w: seq<Node>, d: nat, i: nat)
    requires i < |w|
  {
    && i <= d && g.IsDist(h, w[i], d - i)
    && (i > 0 ==> g.Up(w[i - 1], w[i]) && (w[i] == h || g.IsSwitch(w[i])))
  }

  // After i hops the packet is exactly i links closer.
  lemma {:induction false} Closer(s: Snapshot, h: Node, w: seq<Node>, d: nat, i: nat)
    requires Consistent(s) && s.net.WellFormed() && s.net.IsHost(h) && OwnAddress(s.net, h)
    requires Forwarded(s, h, w) && s.net.IsDist(h, w[0], d) && i < |w|
    ensures OnCourse(s.net, h, w, d, i)
  {
    hide Consistent, OwnAddress, Sends, Network.WellFormed, Network.IsDist, NodeIdToIp;
    if i > 0 {
      hide OnCourse;
      Closer(s, h, w, d, i - 1);
      assert Sends(s, h, w[i - 1], w[i - 1 + 1]);
      StepCloser(s, h, w, d, i);
    }
  }

  lemma StepCloser(s: Snapshot, h: Node, w: seq<Node>, d: nat, i: nat)
    requires Consistent(s) && s.net.WellFormed() && s.net.IsHost(h) && OwnAddress(s.net, h)
    requires 0 < i < |w| && OnCourse(s.net, h, w, d, i - 1) && Sends(s, h, w[i - 1], w[i])
    ensures OnCourse(s.net, h, w, d, i)
  {
    hide Network.IsDist, Consistent, NodeIdToIp, OwnAddress, Network.IsHop, Network.WellFormed;
    assert w[i - 1] < |s.net.kind|;
    SendsIffHop(s, h, w[i - 1], w[i]);
    HopCloser(s.net, h, w[i - 1], w[i], d - (i - 1));
  }

  lemma HopCloser(g: Network, h: Node, n: Node, m: Node, d: nat)
    requires g.WellFormed() && g.IsHop(h, n, m) && g.IsDist(h, n, d)
    ensures d > 0 && g.IsDist(h, m, d - 1) && g.Up(n, m) && (m == h || g.IsSwitch(m)) && m < |g.kind|
  {
    hide Network.IsDist;
    var e: nat :| g.IsDist(h, m, e) && g.IsDist(h, n, e + 1);
    DistUnique(g, h, n, d, e + 1);
  }

  // Whatever port each node picks: every step crosses an up link and comes one link closer, no
  // node is visited twice, only switches relay, and the packet is at h exactly after d steps.
  lemma PacketDelivered(s: Snapshot, h: Node, w: seq<Node>, d: nat)
    requires Consistent(s) && s.net.WellFormed() && s.net.IsHost(h) && OwnAddress(s.net, h)
    requires Forwarded(s, h, w) && s.net.IsDist(h, w[0], d)
    ensures |w| <= d + 1 && NoDup(w)
    ensures forall i :: 0 < i < |w| ==> s.net.Up(w[i - 1], w[i])
    ensures forall i :: 0 < i < |w| && w[i] != h ==> s.net.IsSwitch(w[i])
    ensures w[|w| - 1] == h <==> |w| == d + 1
    ensures w[|w| - 1] != h ==> CanSend(s, h, w[|w| - 1])
  {
    hide Network.IsDist, Consistent, Sends, Network.WellFormed, OwnAddress;
    forall i: nat | i < |w| ensures OnCourse(s.net, h, w, d, i) {
      Closer(s, h, w, d, i);
    }
    var k := |w| - 1;
    assert OnCourse(s.net, h, w, d, k);
    forall i: nat, j: nat | i < j < |w| ensures w[i] != w[j] {
      assert OnCourse(s.net, h, w, d, i) && OnCourse(s.net, h, w, d, j);
      if w[i] == w[j] {
        DistUnique(s.net, h, w[i], d - i, d - j);
      }
    }
    forall i | 0 < i < |w| ensures s.net.Up(w[i - 1], w[i]) && (w[i] == h || s.net.IsSwitch(w[i])) {
      assert OnCourse(s.net, h, w, d, i);
    }
    DistZero(s.net, h, w[k]);
    if w[k] == h {
      DistUnique(s.net, h, w[k], 0, d - k);
    } else {
      HopExists(s.net, h, w[k], d - k);
      var m :| s.net.IsHop(h, w[k], m);
      LastInRange(s, h, w, m);
      SendsIffHop(s, h, w[k], m);
    }
  }

  lemma LastInRange(s: Snapshot, h: Node, w: seq<Node>, m: Node)
    requires s.net.WellFormed() && |w| > 0 && s.net.IsHop(h, w[|w| - 1], m)
    ensures w[|w| - 1] < |s.net.kind|
  {
  }

  // A row is empty exactly for the host itself and for nodes it does not reach: no packet is
  // dropped for want of a route that exists, and none circles where there is none.
  lemma NoRowIff(s: Snapshot, h: Node, n: Node)
    requires Consistent(s) && s.net.WellFormed() && s.net.IsHost(h) && OwnAddress(s.net, h) && n < |s.net.kind|
    ensures Ports(s.tables[n], NodeIdToIp(h)) == [] <==> n == h || !s.net.Reachable(h, n)
  {
    hide NodeIdToIp, Ports, Network.Reachable, TableAppended;
    OwnRow(s, h, n);
    HopIffReachable(s.net, h, n);
    var l := Hops(s.nextHop, n, h);
    assert Ports(s.tables[n], NodeIdToIp(h)) == PortList(s.net.nbr, n, l);
    assert s.net.CorrectHops(h, n, l);
    if l != [] {
      assert l[0] in l && s.net.IsHop(h, n, l[0]);
    }
  }

  // What stands in the containers: nextHop[n][h] holds exactly the next hops, and the row of h's
  // address in n's table exactly one port for each.
  lemma StoredIff(s: Snapshot, h: Node, n: Node, m: Node)
    requires Consistent(s) && s.net.WellFormed() && s.net.IsHost(h) && OwnAddress(s.net, h) && n < |s.net.kind|
    ensures s.net.IsHop(h, n, m) <==> n in s.nextHop && h in s.nextHop[n] && m in s.nextHop[n][h]
    ensures s.net.IsHop(h, n, m) ==>
              && n < |s.tables| && NodeIdToIp(h) in s.tables[n] && n in s.net.nbr && m in s.net.nbr[n]
              && multiset(s.tables[n][NodeIdToIp(h)])[s.net.nbr[n][m].idx] == 1
  {
    hide NodeIdToIp, Network.IsDist, TableAppended;
    OwnRow(s, h, n);
    var g, l := s.net, Hops(s.nextHop, n, h);
    assert g.CorrectHops(h, n, l);
    if g.IsHop(h, n, m) {
      assert g.Up(m, n) && g.Up(n, m) && m in l;
      assert NodeIdToIp(h) in s.tables[n];
      PortsDiffer(g, h, n, l);
      var ports := PortList(g.nbr, n, l);
      var k :| 0 <= k < |l| && l[k] == m;
      assert ports[k] == g.nbr[n][m].idx && ports[k] in ports;
      NoDupCount(ports, ports[k]);
    }
  }

  lemma PortsDiffer(g: Network, h: Node, n: Node, l: seq<Node>)
    requires g.WellFormed() && g.CorrectHops(h, n, l)
    ensures NoDup(PortList(g.nbr, n, l))
  {
    hide Network.IsDist;
    forall i, j | 0 <= i < j < |l| ensures At(g.nbr, n, l[i]).idx != At(g.nbr, n, l[j]).idx {
      assert l[i] in l && l[j] in l && g.IsHop(h, n, l[i]) && g.IsHop(h, n, l[j]);
      assert g.Up(n, l[i]) && g.Up(n, l[j]);
    }
  }
}

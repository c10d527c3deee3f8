/** The network graph of scratch/topology.h as a value: node kinds, interfaces, and the
    declarative notions the routing results are stated in (walks, distances, next hops). */
module Net {
  import opened Words
  import opened Sequences

  // A node is its index in the NodeContainer (node id and container index agree).
  type Node = nat

  // GetNodeType(): 0 for a host, 1 for a switch.
  datatype NodeKind = Host | Switch

  datatype Interface = Interface(idx: U32, up: bool, delay: U64, bw: U64)

  type Links = map<Node, map<Node, Interface>>

  datatype Network = Network(kind: seq<NodeKind>, nbr: Links) {
    predicate Up(a: Node, b: Node) {
      a in nbr && b in nbr[a] && nbr[a][b].up
    }

    predicate IsSwitch(n: Node) {
      n < |kind| && kind[n].Switch?
    }

    predicate IsHost(n: Node) {
      n < |kind| && kind[n].Host?
    }

    // The nodes whose neighbours the search from h looks at.
    predicate Expands(h: Node, m: Node) {
      m == h || IsSwitch(m)
    }

    // Every up link joins two container nodes and has a non-zero rate.
    ghost predicate InRange() {
      forall a: Node, b: Node :: Up(a, b) ==> a < |kind| && b < |kind| && nbr[a][b].bw > 0
    }

    ghost predicate Symmetric() {
      forall a: Node, b: Node :: Up(a, b) ==> Up(b, a)
    }

    // Real devices have distinct non-zero indices on their node; index 0 is the loopback
    // device and the value a default-constructed Interface carries.
    ghost predicate DistinctPorts() {
      && (forall a: Node, b: Node :: Up(a, b) ==> nbr[a][b].idx > 0)
      && (forall a, b, c :: a in nbr && b in nbr[a] && c in nbr[a] &&
                            nbr[a][b].idx == nbr[a][c].idx && nbr[a][b].idx > 0
                            ==> b == c)
    }

    ghost predicate WellFormed() {
      InRange() && Symmetric() && DistinctPorts()
    }

    // p goes from its i-th node to the next over an up link; past its start it only passes switches.
    ghost predicate Step(p: seq<Node>, i: nat)
      requires i + 1 < |p|
    {
      Up(p[i], p[i + 1]) && (i > 0 ==> IsSwitch(p[i]))
    }

    // A walk over up links that starts at h and whose inner nodes are all switches.
    ghost predicate Walk(h: Node, p: seq<Node>) {
      |p| > 0 && p[0] == h && forall i: nat :: i + 1 < |p| ==> Step(p, i)
    }

    ghost predicate WalkTo(h: Node, n: Node, p: seq<Node>) {
      Walk(h, p) && p[|p| - 1] == n
    }

    ghost predicate Shortest(h: Node, n: Node, p: seq<Node>) {
      WalkTo(h, n, p) && forall w :: WalkTo(h, n, w) ==> |p| <= |w|
    }

    ghost predicate Reachable(h: Node, n: Node) {
      exists p :: WalkTo(h, n, p)
    }

    // d links is the least number of links on a walk from h to n.
    ghost predicate IsDist(h: Node, n: Node, d: nat) {
      exists p :: Shortest(h, n, p) && |p| == d + 1
    }

    // m is an equal-cost next hop from n towards h.
    ghost predicate IsHop(h: Node, n: Node, m: Node) {
      Up(m, n) && Expands(h, m) && exists d: nat :: IsDist(h, m, d) && IsDist(h, n, d + 1)
    }

    // l lists every equal-cost next hop from n towards h exactly once.
    ghost predicate CorrectHops(h: Node, n: Node, l: seq<Node>) {
      NoDup(l) && forall m :: m in l <==> IsHop(h, n, m)
    }
  }

  // Walks extend by one up link out of an expanded node.
  lemma WalkExtend(g: Network, h: Node, m: Node, n: Node, p: seq<Node>)
    requires g.WalkTo(h, m, p) && g.Expands(h, m) && g.Up(m, n)
    requires m == h ==> |p| == 1
    ensures g.WalkTo(h, n, p + [n])
  {
    var r := p + [n];
    forall i: nat | i + 1 < |r| ensures g.Step(r, i) {
      if i + 1 < |p| {
        assert g.Step(p, i);
      }
    }
  }

  // Any walk contains a shortest one between the same end points.
  lemma {:induction false} ShortestExists(g: Network, h: Node, n: Node, p: seq<Node>)
    requires g.WalkTo(h, n, p)
    ensures exists q :: g.Shortest(h, n, q) && |q| <= |p|
    decreases |p|
  {
    if w :| g.WalkTo(h, n, w) && |w| < |p| {
      ShortestExists(g, h, n, w);
    } else {
      assert g.Shortest(h, n, p);
    }
  }

  lemma DistUnique(g: Network, h: Node, n: Node, d: nat, e: nat)
    requires g.IsDist(h, n, d) && g.IsDist(h, n, e)
    ensures d == e
  {
    var p :| g.Shortest(h, n, p) && |p| == d + 1;
    var q :| g.Shortest(h, n, q) && |q| == e + 1;
    assert g.WalkTo(h, n, p) && g.WalkTo(h, n, q);
  }

  // A node has a distance exactly when some walk reaches it.
  lemma ReachableIffDist(g: Network, h: Node, n: Node)
    ensures g.Reachable(h, n) <==> exists d: nat :: g.IsDist(h, n, d)
  {
    if g.Reachable(h, n) {
      var p :| g.WalkTo(h, n, p);
      ShortestExists(g, h, n, p);
      var q :| g.Shortest(h, n, q) && |q| <= |p|;
      assert g.IsDist(h, n, |q| - 1);
    }
    if d: nat :| g.IsDist(h, n, d) {
      var p :| g.Shortest(h, n, p) && |p| == d + 1;
      assert g.WalkTo(h, n, p);
    }
  }

  lemma DistZero(g: Network, h: Node, n: Node)
    ensures g.IsDist(h, n, 0) <==> n == h
  {
    assert g.WalkTo(h, h, [h]);
    if n == h {
      assert g.Shortest(h, h, [h]);
    }
  }

  // Every next hop list depends on the up links only.
  lemma HopsUnique(g: Network, h: Node, n: Node, l: seq<Node>, k: seq<Node>)
    requires g.CorrectHops(h, n, l) && g.CorrectHops(h, n, k)
    ensures multiset(l) == multiset(k)
  {
    NoDupSameMultiset(l, k);
  }

  ghost predicate FewerLinks(g: Network, f: Network) {
    g.kind == f.kind && forall a: Node, b: Node :: f.Up(a, b) ==> g.Up(a, b)
  }

  // Removing links never brings a node closer.
  lemma DistMonotone(g: Network, f: Network, h: Node, n: Node, e: nat)
    requires FewerLinks(g, f) && f.IsDist(h, n, e)
    ensures exists d: nat :: d <= e && g.IsDist(h, n, d)
  {
    var p :| f.Shortest(h, n, p) && |p| == e + 1;
    forall i: nat | i + 1 < |p| ensures g.Step(p, i) {
      assert f.Step(p, i);
    }
    assert g.WalkTo(h, n, p);
    ShortestExists(g, h, n, p);
    var q :| g.Shortest(h, n, q) && |q| <= |p|;
    assert g.IsDist(h, n, |q| - 1);
  }

  ghost predicate SameLinks(g: Network, f: Network) {
    g.kind == f.kind && forall a: Node, b: Node :: f.Up(a, b) <==> g.Up(a, b)
  }

  lemma SameLinksSameDist(g: Network, f: Network, h: Node, n: Node, d: nat)
    requires SameLinks(g, f)
    ensures g.IsDist(h, n, d) <==> f.IsDist(h, n, d)
  {
    if g.IsDist(h, n, d) {
      DistMonotone(f, g, h, n, d);
      var e: nat :| e <= d && f.IsDist(h, n, e);
      DistMonotone(g, f, h, n, e);
      var c: nat :| c <= e && g.IsDist(h, n, c);
      DistUnique(g, h, n, c, d);
    }
    if f.IsDist(h, n, d) {
      DistMonotone(g, f, h, n, d);
      var e: nat :| e <= d && g.IsDist(h, n, e);
      DistMonotone(f, g, h, n, e);
      var c: nat :| c <= e && f.IsDist(h, n, c);
      DistUnique(f, h, n, c, d);
    }
  }

  lemma SameLinksSameHops(g: Network, f: Network, h: Node, n: Node, l: seq<Node>)
    requires SameLinks(g, f) && g.CorrectHops(h, n, l)
    ensures f.CorrectHops(h, n, l)
  {
    forall m ensures g.IsHop(h, n, m) <==> f.IsHop(h, n, m) {
      forall d: nat
        ensures g.IsDist(h, m, d) <==> f.IsDist(h, m, d)
        ensures g.IsDist(h, n, d + 1) <==> f.IsDist(h, n, d + 1)
      {
        SameLinksSameDist(g, f, h, m, d);
        SameLinksSameDist(g, f, h, n, d + 1);
      }
    }
  }

  // ---- distances between hosts do not depend on the end they are measured from ----

  lemma WalkReverse(g: Network, h: Node, n: Node, p: seq<Node>)
    requires g.Symmetric() && g.WalkTo(h, n, p)
    ensures g.WalkTo(n, h, Reverse(p))
  {
    var r := Reverse(p);
    forall i: nat | i + 1 < |r| ensures g.Step(r, i) {
      var j := |p| - 2 - i;
      assert g.Step(p, j);
      if i > 0 {
        assert g.Step(p, j + 1);
      }
    }
  }

  // Over symmetric links the hop distance is the same computed from either end.
  lemma DistSymmetric(g: Network, h: Node, n: Node, d: nat)
    requires g.Symmetric()
    ensures g.IsDist(h, n, d) <==> g.IsDist(n, h, d)
  {
    DistReverse(g, h, n);
    DistReverse(g, n, h);
  }

  lemma DistReverse(g: Network, h: Node, n: Node)
    requires g.Symmetric()
    ensures forall d: nat :: g.IsDist(h, n, d) ==> g.IsDist(n, h, d)
  {
    forall d: nat | g.IsDist(h, n, d) ensures g.IsDist(n, h, d) {
      var p :| g.Shortest(h, n, p) && |p| == d + 1;
      WalkReverse(g, h, n, p);
      forall w | g.WalkTo(n, h, w) ensures |p| <= |w| {
        WalkReverse(g, n, h, w);
      }
      assert g.Shortest(n, h, Reverse(p));
    }
  }
}

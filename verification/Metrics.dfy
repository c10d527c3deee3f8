/** ComputeBdpAndRtt of scratch/topology.h, and what the recorded labels mean as path sums. */
module Metrics {
  import opened Words
  import opened Net
  import opened Bfs
  import opened Topology

  // delay * 2 + txDelay and rtt * bw / 1000000000 / 8, in 64-bit arithmetic.
  function Rtt(m: Metric): U64 { Wrap64(Wrap64(m.delay * 2) + m.tx) }

  function Bdp(m: Metric): U64 { Wrap64(Rtt(m) * m.bw) / 1_000_000_000 / 8 }

  // The host pairs (x, y) that the two loops have passed when they stand at (i, j).
  ghost predicate Passed(g: Network, i: nat, j: nat, x: Node, y: Node) {
    g.IsHost(x) && g.IsHost(y) && (x < i || (x == i && y < j))
  }

  // v is the greatest entry of m over the host pairs passed, or 0 when there is none.
  ghost predicate Greatest(g: Network, m: Matrix, v: U64, i: nat, j: nat, size: nat) {
    && (forall x: Node, y: Node :: y < size && Passed(g, i, j, x, y) ==> Get2(m, x, y) <= v)
    && (v == 0 || exists x: Node, y: Node :: y < size && Passed(g, i, j, x, y) && Get2(m, x, y) == v)
  }

  ghost predicate Computed(g: Network, pairs: Pairs, rtt: Matrix, bdp: Matrix, i: nat, j: nat, size: nat) {
    forall x: Node, y: Node :: y < size && Passed(g, i, j, x, y) ==>
      Get2(rtt, x, y) == Rtt(pairs.At(x, y)) && Get2(bdp, x, y) == Bdp(pairs.At(x, y))
  }

  method ComputeBdpAndRtt(topo: TopologyState, nodes: NodeContainer, nodeNum: nat)
    requires nodeNum <= |nodes.kind|
    modifies topo`pairBdp, topo`pairRtt, topo`maxRtt, topo`maxBdp
    ensures Computed(topo.Graph(nodes), topo.PairsNow(), topo.pairRtt, topo.pairBdp, nodeNum, 0, nodeNum)
    ensures Greatest(topo.Graph(nodes), topo.pairRtt, topo.maxRtt, nodeNum, 0, nodeNum)
    ensures Greatest(topo.Graph(nodes), topo.pairBdp, topo.maxBdp, nodeNum, 0, nodeNum)
    ensures forall x: Node, y: Node :: x < nodeNum && y < nodeNum && nodes.kind[x] == nodes.kind[y] == Host ==>
              Rounds(topo.PairsNow().At(x, y), Get2(topo.pairRtt, x, y), Get2(topo.pairBdp, x, y))
    ensures Maximum(nodes.kind, nodeNum, topo.pairRtt, topo.maxRtt)
    ensures Maximum(nodes.kind, nodeNum, topo.pairBdp, topo.maxBdp)
  {
    hide Rtt, Bdp, Put2, Get2, Computed, Greatest;
    ghost var g, pairs := topo.Graph(nodes), topo.PairsNow();
    topo.maxRtt, topo.maxBdp := 0, 0;
    NothingPassed(g, pairs, topo.pairRtt, topo.pairBdp, nodeNum);
    for i := 0 to nodeNum
      invariant Computed(g, pairs, topo.pairRtt, topo.pairBdp, i, 0, nodeNum)
      invariant Greatest(g, topo.pairRtt, topo.maxRtt, i, 0, nodeNum) &&
                Greatest(g, topo.pairBdp, topo.maxBdp, i, 0, nodeNum)
    {
      if nodes.kind[i] != Host {
        Advance(g, pairs, topo.pairRtt, topo.pairBdp, topo.maxRtt, topo.maxBdp, i, 0, i + 1, 0, nodeNum);
        continue;
      }
      for j := 0 to nodeNum
        invariant Computed(g, pairs, topo.pairRtt, topo.pairBdp, i, j, nodeNum)
        invariant Greatest(g, topo.pairRtt, topo.maxRtt, i, j, nodeNum) &&
                  Greatest(g, topo.pairBdp, topo.maxBdp, i, j, nodeNum)
      {
        if nodes.kind[j] != Host {
          Advance(g, pairs, topo.pairRtt, topo.pairBdp, topo.maxRtt, topo.maxBdp, i, j, i, j + 1, nodeNum);
          continue;
        }
        var m := Metric(Get2(topo.pairDelay, i, j), Get2(topo.pairTxDelay, i, j), Get2(topo.pairBw, i, j));
        var rtt := Rtt(m);
        var bdp := Bdp(m);
        ComputedStep(g, pairs, topo.pairRtt, topo.pairBdp, i, j, nodeNum);
        GreatestStep(g, topo.pairRtt, topo.maxRtt, i, j, nodeNum, rtt);
        GreatestStep(g, topo.pairBdp, topo.maxBdp, i, j, nodeNum, bdp);
        topo.pairBdp := Put2(topo.pairBdp, i, j, bdp);
        topo.pairRtt := Put2(topo.pairRtt, i, j, rtt);
        if bdp > topo.maxBdp {
          topo.maxBdp := bdp;
        }
        if rtt > topo.maxRtt {
          topo.maxRtt := rtt;
        }
      }
      Advance(g, pairs, topo.pairRtt, topo.pairBdp, topo.maxRtt, topo.maxBdp, i, nodeNum, i + 1, 0, nodeNum);
    }
    AllPassed(nodes.kind, g, pairs, topo.pairRtt, topo.pairBdp, topo.maxRtt, topo.maxBdp, nodeNum);
  }

  // A round trip is twice the delay and the serialization, and carries rtt * rate / 8e9 bytes, all
  // modulo 2^64.
  ghost predicate Rounds(m: Metric, rtt: U64, bdp: U64) {
    && rtt == (2 * m.delay + m.tx) % 0x1_0000_0000_0000_0000
    && bdp == rtt * m.bw % 0x1_0000_0000_0000_0000 / 8_000_000_000
  }

  // v is the greatest entry for two of the first size nodes that are hosts; 0 if there is none.
  ghost predicate Maximum(kind: seq<NodeKind>, size: nat, m: Matrix, v: U64)
    requires size <= |kind|
  {
    && (forall x: Node, y: Node :: x < size && y < size && kind[x] == kind[y] == Host ==> Get2(m, x, y) <= v)
    && (v == 0 || exists x: Node, y: Node :: x < size && y < size && kind[x] == kind[y] == Host && Get2(m, x, y) == v)
  }

  lemma AllPassed(kind: seq<NodeKind>, g: Network, pairs: Pairs, rtt: Matrix, bdp: Matrix, maxRtt: U64, maxBdp: U64,
                  size: nat)
    requires kind == g.kind && size <= |kind| && Computed(g, pairs, rtt, bdp, size, 0, size)
    requires Greatest(g, rtt, maxRtt, size, 0, size) && Greatest(g, bdp, maxBdp, size, 0, size)
    ensures forall x: Node, y: Node :: x < size && y < size && kind[x] == kind[y] == Host ==>
              Rounds(pairs.At(x, y), Get2(rtt, x, y), Get2(bdp, x, y))
    ensures Maximum(kind, size, rtt, maxRtt) && Maximum(kind, size, bdp, maxBdp)
  {
    hide Rounds, Rtt, Bdp, Get2, Pairs.At;
    forall x: Node, y: Node | x < size && y < size && kind[x] == kind[y] == Host
      ensures Passed(g, size, 0, x, y) && Rounds(pairs.At(x, y), Get2(rtt, x, y), Get2(bdp, x, y))
    {
      assert Passed(g, size, 0, x, y);
      RoundsOk(pairs.At(x, y));
    }
  }

  lemma RoundsOk(m: Metric)
    ensures Rounds(m, Rtt(m), Bdp(m))
  {
    var x: nat := m.delay * 2;
    WrapAdd(x, m.tx);
    DivTwice(Wrap64(Rtt(m) * m.bw));
  }

  lemma NothingPassed(g: Network, pairs: Pairs, rtt: Matrix, bdp: Matrix, size: nat)
    ensures Computed(g, pairs, rtt, bdp, 0, 0, size) && Greatest(g, rtt, 0, 0, 0, size) &&
            Greatest(g, bdp, 0, 0, 0, size)
  {
  }

  // The loops move on without passing a pair of hosts.
  lemma Advance(g: Network, pairs: Pairs, rtt: Matrix, bdp: Matrix, maxRtt: U64, maxBdp: U64,
                i: nat, j: nat, i': nat, j': nat, size: nat)
    requires (i' == i + 1 && j' == 0 && (j == size || !g.IsHost(i))) || (i' == i && j' == j + 1 && !g.IsHost(j))
    requires Computed(g, pairs, rtt, bdp, i, j, size) && Greatest(g, rtt, maxRtt, i, j, size) &&
             Greatest(g, bdp, maxBdp, i, j, size)
    ensures Computed(g, pairs, rtt, bdp, i', j', size) && Greatest(g, rtt, maxRtt, i', j', size) &&
            Greatest(g, bdp, maxBdp, i', j', size)
  {
    hide Get2, Rtt, Bdp;
    forall x: Node, y: Node | y < size ensures Passed(g, i', j', x, y) <==> Passed(g, i, j, x, y) {
    }
  }

  lemma ComputedStep(g: Network, pairs: Pairs, rtt: Matrix, bdp: Matrix, i: nat, j: nat, size: nat)
    requires g.IsHost(i) && g.IsHost(j) && Computed(g, pairs, rtt, bdp, i, j, size)
    ensures Computed(g, pairs, Put2(rtt, i, j, Rtt(pairs.At(i, j))), Put2(bdp, i, j, Bdp(pairs.At(i, j))),
                     i, j + 1, size)
  {
    hide Get2, Put2, Rtt, Bdp;
    GetPutAll(rtt, i, j, Rtt(pairs.At(i, j)));
    GetPutAll(bdp, i, j, Bdp(pairs.At(i, j)));
  }

  lemma GreatestStep(g: Network, m: Matrix, v: U64, i: nat, j: nat, size: nat, x: U64)
    requires g.IsHost(i) && g.IsHost(j) && j < size && Greatest(g, m, v, i, j, size)
    ensures Greatest(g, Put2(m, i, j, x), if x > v then x else v, i, j + 1, size)
  {
    hide Get2, Put2;
    GetPutAll(m, i, j, x);
    if x <= v && v > 0 {
      var a: Node, b: Node :| b < size && Passed(g, i, j, a, b) && Get2(m, a, b) == v;
      assert Passed(g, i, j + 1, a, b) && Get2(Put2(m, i, j, x), a, b) == v;
    } else {
      assert Passed(g, i, j + 1, i, j) && Get2(Put2(m, i, j, x), i, j) == x;
    }
  }

  lemma GetPutAll(m: Matrix, i: Node, j: Node, v: U64)
    ensures forall a: Node, b: Node :: Get2(Put2(m, i, j, v), a, b) == if a == i && b == j then v else Get2(m, a, b)
  {
    forall a: Node, b: Node ensures Get2(Put2(m, i, j, v), a, b) == if a == i && b == j then v else Get2(m, a, b) {
      GetPut(m, i, j, v, a, b);
    }
  }

  // ---- the labels as sums and minimum along one walk, over unbounded integers ----

  ghost function PathDelay(nbr: Links, p: seq<Node>): nat {
    if |p| <= 1 then 0 else PathDelay(nbr, p[..|p| - 1]) + At(nbr, p[|p| - 2], p[|p| - 1]).delay
  }

  ghost function PathTx(nbr: Links, payload: U32, p: seq<Node>): nat {
    if |p| <= 1 then 0
    else PathTx(nbr, payload, p[..|p| - 1]) + TxTime(payload, At(nbr, p[|p| - 2], p[|p| - 1]).bw)
  }

  // bw is the rate of some link of the walk, and no link of it is slower.
  ghost predicate Bottleneck(nbr: Links, p: seq<Node>, bw: U64) {
    && (forall i :: 0 <= i < |p| - 1 ==> bw <= At(nbr, p[i], p[i + 1]).bw)
    && (bw == U64_SIZE - 1 || exists i :: 0 <= i < |p| - 1 && bw == At(nbr, p[i], p[i + 1]).bw)
  }

  // Adding modulo 2^64 link by link gives the sums modulo 2^64, and the running minimum the bottleneck.
  lemma {:induction false} PathMetricMeaning(nbr: Links, payload: U32, p: seq<Node>)
    ensures var m := PathMetric(nbr, payload, p);
            && m.delay == Wrap64(PathDelay(nbr, p)) && m.tx == Wrap64(PathTx(nbr, payload, p))
            && Bottleneck(nbr, p, m.bw)
    decreases |p|
  {
    hide Bottleneck, Wrap64, TxTime;
    WrapZero();
    if |p| <= 1 {
      EmptyBottleneck(nbr, p);
    } else {
      var r, it := p[..|p| - 1], At(nbr, p[|p| - 2], p[|p| - 1]);
      PathMetricMeaning(nbr, payload, r);
      SumsExtend(nbr, payload, r, it);
      BottleneckExtend(nbr, p, PathMetric(nbr, payload, r).bw, it.bw);
    }
  }

  lemma WrapZero()
    ensures Wrap64(0) == 0
  {
  }

  lemma EmptyBottleneck(nbr: Links, p: seq<Node>)
    requires |p| <= 1
    ensures Bottleneck(nbr, p, START.bw)
  {
  }

  lemma SumsExtend(nbr: Links, payload: U32, r: seq<Node>, it: Interface)
    requires PathMetric(nbr, payload, r).delay == Wrap64(PathDelay(nbr, r))
    requires PathMetric(nbr, payload, r).tx == Wrap64(PathTx(nbr, payload, r))
    ensures Extend(PathMetric(nbr, payload, r), payload, it).delay == Wrap64(PathDelay(nbr, r) + it.delay)
    ensures Extend(PathMetric(nbr, payload, r), payload, it).tx ==
            Wrap64(PathTx(nbr, payload, r) + TxTime(payload, it.bw))
  {
    hide Wrap64, TxTime, PathMetric, PathDelay, PathTx;
    WrapAdd(PathDelay(nbr, r), it.delay);
    WrapAdd(PathTx(nbr, payload, r), TxTime(payload, it.bw));
  }

  lemma BottleneckExtend(nbr: Links, p: seq<Node>, bw: U64, last: U64)
    requires |p| > 1 && Bottleneck(nbr, p[..|p| - 1], bw) && last == At(nbr, p[|p| - 2], p[|p| - 1]).bw
    ensures Bottleneck(nbr, p, Min(bw, last))
  {
    hide At;
    var r := p[..|p| - 1];
    forall i | 0 <= i < |p| - 1 ensures Min(bw, last) <= At(nbr, p[i], p[i + 1]).bw {
      if i < |r| - 1 {
        assert r[i] == p[i] && r[i + 1] == p[i + 1];
      }
    }
    if bw != U64_SIZE - 1 {
      var i :| 0 <= i < |r| - 1 && bw == At(nbr, r[i], r[i + 1]).bw;
      assert bw == At(nbr, p[i], p[i + 1]).bw;
    }
  }

  // No link of g is slower than these bounds.
  ghost predicate LinkBounds(g: Network, payload: U32, maxDelay: nat, maxTx: nat) {
    forall a: Node, b: Node :: g.Up(a, b) ==>
      At(g.nbr, a, b).delay <= maxDelay && TxTime(payload, At(g.nbr, a, b).bw) <= maxTx
  }

  lemma {:induction false} PathBound(g: Network, payload: U32, h: Node, p: seq<Node>, maxDelay: nat, maxTx: nat)
    requires g.Walk(h, p) && LinkBounds(g, payload, maxDelay, maxTx)
    ensures 2 * PathDelay(g.nbr, p) + PathTx(g.nbr, payload, p) <= (|p| - 1) * (2 * maxDelay + maxTx)
    decreases |p|
  {
    hide TxTime, At;
    if |p| > 1 {
      var r := p[..|p| - 1];
      forall i: nat | i + 1 < |r| ensures g.Step(r, i) {
        assert g.Step(p, i);
      }
      assert g.Step(p, |p| - 2);
      PathBound(g, payload, h, r, maxDelay, maxTx);
      var b := 2 * maxDelay + maxTx;
      assert (|p| - 1) * b == (|r| - 1) * b + b;
    }
  }

  // What a recorded round-trip time is: twice the delay plus the serialization time of one
  // shortest walk, modulo 2^64, hence never above hops * (2 * max delay + max serialization time).
  lemma RttMeaning(g: Network, payload: U32, h: Node, n: Node, m: Metric, maxDelay: nat, maxTx: nat)
    requires Recorded(g, payload, h, n, m) && LinkBounds(g, payload, maxDelay, maxTx)
    ensures exists p :: g.Shortest(h, n, p) && Bottleneck(g.nbr, p, m.bw)
              && Rtt(m) == Wrap64(2 * PathDelay(g.nbr, p) + PathTx(g.nbr, payload, p))
              && Rtt(m) <= (|p| - 1) * (2 * maxDelay + maxTx)
  {
    hide PathDelay, PathTx, LinkBounds, Bottleneck;
    var p :| g.Shortest(h, n, p) && PathMetric(g.nbr, payload, p) == m;
    PathMetricMeaning(g.nbr, payload, p);
    PathBound(g, payload, h, p, maxDelay, maxTx);
    RttSum(m, PathDelay(g.nbr, p), PathTx(g.nbr, payload, p));
  }

  lemma RttSum(m: Metric, delay: nat, tx: nat)
    requires m.delay == Wrap64(delay) && m.tx == Wrap64(tx)
    ensures Rtt(m) == Wrap64(2 * delay + tx) <= 2 * delay + tx
  {
    hide Wrap64;
    WrapAdd(delay, Wrap64(delay));
    WrapAdd(delay, delay);
    WrapAdd(m.delay * 2, m.tx);
    WrapAdd(tx, m.delay * 2);
    WrapAdd(delay, m.delay + tx);
    WrapAdd(delay, delay + tx);
    assert m.delay * 2 + m.tx == m.tx + m.delay * 2;
    assert m.delay + (m.delay + tx) == tx + m.delay * 2;
    assert delay + (m.delay + tx) == m.delay + (delay + tx);
    assert delay + (delay + tx) == 2 * delay + tx;
    WrapAtMost(2 * delay + tx);
  }

  lemma WrapAtMost(a: nat)
    ensures Wrap64(a) <= a
  {
  }

  // The product is divided once by 8 * 10^9, unless it does not fit 64 bits.
  lemma BdpExact(m: Metric)
    requires Rtt(m) * m.bw < U64_SIZE
    ensures Bdp(m) == Rtt(m) * m.bw / 8_000_000_000
  {
    hide Rtt, Wrap64;
    var x: nat := Rtt(m) * m.bw;
    WrapFits(x);
    DivTwice(x);
  }

  lemma WrapFits(x: nat)
    requires x < U64_SIZE
    ensures Wrap64(x) == x
  {
  }

  lemma DivTwice(x: nat)
    ensures x / 1_000_000_000 / 8 == x / 8_000_000_000
  {
    var q, r := x / 8_000_000_000, x % 8_000_000_000;
    assert x / 1_000_000_000 == 8 * q + r / 1_000_000_000;
  }

  // After CalculateRoutes on fresh matrices: for every pair of hosts the round trip is bounded
  // by the hop distance, and self pairs and unreachable pairs contribute nothing.
  lemma SetupRtt(g: Network, payload: U32, pairs: Pairs, h: Node, n: Node, d: nat, maxDelay: nat, maxTx: nat)
    requires PairsRecorded(g, payload, Pairs(map[], map[], map[]), pairs, |g.kind|)
    requires g.IsHost(h) && LinkBounds(g, payload, maxDelay, maxTx)
    ensures g.IsDist(h, n, d) ==> Rtt(pairs.At(n, h)) <= d * (2 * maxDelay + maxTx)
    ensures !g.Reachable(h, n) ==> Rtt(pairs.At(n, h)) == 0 && Bdp(pairs.At(n, h)) == 0
    ensures n == h ==> Rtt(pairs.At(n, h)) == 0 && Bdp(pairs.At(n, h)) == 0
  {
    hide LinkBounds, Rtt, Bdp, Recorded, Network.IsDist, Network.Reachable;
    assert ColumnRecorded(g, payload, Pairs(map[], map[], map[]), pairs, h);
    ReachableIffDist(g, h, n);
    if g.IsDist(h, n, d) {
      RecordedBound(g, payload, h, n, pairs.At(n, h), d, maxDelay, maxTx);
    }
    if n == h {
      DistZero(g, h, h);
      RecordedBound(g, payload, h, h, pairs.At(h, h), 0, maxDelay, maxTx);
      ZeroBdp(pairs.At(h, h));
    }
    if !g.Reachable(h, n) {
      assert pairs.At(n, h) == Metric(0, 0, 0);
      ZeroRtt(pairs.At(n, h));
      ZeroBdp(pairs.At(n, h));
    }
  }

  lemma RecordedBound(g: Network, payload: U32, h: Node, n: Node, m: Metric, d: nat, maxDelay: nat, maxTx: nat)
    requires Recorded(g, payload, h, n, m) && LinkBounds(g, payload, maxDelay, maxTx) && g.IsDist(h, n, d)
    ensures Rtt(m) <= d * (2 * maxDelay + maxTx)
  {
    hide Recorded, LinkBounds, Rtt, Bottleneck;
    RttMeaning(g, payload, h, n, m, maxDelay, maxTx);
    var p :| g.Shortest(h, n, p) && Rtt(m) <= (|p| - 1) * (2 * maxDelay + maxTx);
    assert g.IsDist(h, n, |p| - 1);
    DistUnique(g, h, n, d, |p| - 1);
  }

  lemma ZeroRtt(m: Metric)
    requires m.delay == 0 && m.tx == 0
    ensures Rtt(m) == 0
  {
  }

  lemma ZeroBdp(m: Metric)
    requires Rtt(m) == 0
    ensures Bdp(m) == 0
  {
  }

  // A link of bw bits a second needs tx nanoseconds, rounded down, for the payload's bits, as long
  // as their number times 10^9 fits 64 bits.
  lemma TxTimeExact(payload: U32, bw: U64)
    requires bw > 0 && 8 * payload * 1_000_000_000 < U64_SIZE
    ensures var tx: nat := TxTime(payload, bw); tx * bw <= 8 * payload * 1_000_000_000 < (tx + 1) * bw
  {
    var x: nat := payload * 1_000_000_000 * 8;
    assert Wrap64(x) == x;
    DivBounds(x, bw);
  }

  lemma DivBounds(x: nat, d: nat)
    requires d > 0
    ensures x / d * d <= x < (x / d + 1) * d
  {
    assert x == x / d * d + x % d;
  }
}

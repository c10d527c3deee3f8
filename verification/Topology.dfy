/** TopologyState of scratch/topology.h: route computation, forwarding tables and link failure,
    each method proved against the declarative notions of Net. */
module Topology {
  import opened Words
  import opened Sequences
  import opened Net
  import opened Bfs
  import opened Addressing

  type NextHops = map<Node, map<Node, seq<Node>>>
  type Matrix = map<Node, map<Node, U64>>
  type Table = map<U32, seq<U32>>

  // ---- nested map access ----

  function Hops(nextHop: NextHops, n: Node, h: Node): seq<Node> {
    if n in nextHop && h in nextHop[n] then nextHop[n][h] else []
  }

  // nextHop[n][h].push_back(m)
  function Push(nextHop: NextHops, n: Node, h: Node, m: Node): NextHops {
    var row: map<Node, seq<Node>> := if n in nextHop then nextHop[n] else map[];
    nextHop[n := row[h := Hops(nextHop, n, h) + [m]]]
  }

  function Get2(m: Matrix, i: Node, j: Node): U64 {
    if i in m && j in m[i] then m[i][j] else 0
  }

  // m[i][j] = v
  function Put2(m: Matrix, i: Node, j: Node, v: U64): Matrix {
    var row: map<Node, U64> := if i in m then m[i] else map[];
    m[i := row[j := v]]
  }

  lemma GetPut(m: Matrix, i: Node, j: Node, v: U64, a: Node, b: Node)
    ensures Get2(Put2(m, i, j, v), a, b) == if a == i && b == j then v else Get2(m, a, b)
  {
  }

  // nbr[a][b] = it
  function PutLink(nbr: Links, a: Node, b: Node, it: Interface): Links {
    var row: map<Node, Interface> := if a in nbr then nbr[a] else map[];
    nbr[a := row[b := it]]
  }

  function Ports(table: Table, addr: U32): seq<U32> {
    if addr in table then table[addr] else []
  }

  // table[addr].push_back(port)
  function AddPort(table: Table, addr: U32, port: U32): Table {
    table[addr := Ports(table, addr) + [port]]
  }

  // The interface indices that lead from n to each node of l.
  function PortList(nbr: Links, n: Node, l: seq<Node>): seq<U32> {
    seq(|l|, k requires 0 <= k < |l| => At(nbr, n, l[k]).idx)
  }

  lemma AddPortPorts(table: Table, addr: U32, port: U32)
    ensures forall a :: Ports(AddPort(table, addr, port), a) == Ports(table, a) + if a == addr then [port] else []
  {
  }

  lemma PortListSnoc(nbr: Links, n: Node, l: seq<Node>, m: Node)
    ensures PortList(nbr, n, l + [m]) == PortList(nbr, n, l) + [At(nbr, n, m).idx]
  {
  }

  lemma PortListEmpty(nbr: Links, n: Node)
    ensures PortList(nbr, n, []) == []
  {
  }

  // ---- what the methods promise about next hops ----

  // Column h grew by exactly the equal-cost next hops towards h.
  ghost predicate ColumnAppended(g: Network, was: NextHops, now: NextHops, h: Node) {
    forall n: Node :: Hops(was, n, h) <= Hops(now, n, h) && g.CorrectHops(h, n, Hops(now, n, h)[|Hops(was, n, h)|..])
  }

  ghost predicate ColumnKept(was: NextHops, now: NextHops, h: Node) {
    forall n: Node :: Hops(now, n, h) == Hops(was, n, h)
  }

  ghost predicate RoutesAppended(g: Network, was: NextHops, now: NextHops, upTo: nat) {
    forall h: Node :: if h < upTo && g.IsHost(h) then ColumnAppended(g, was, now, h) else ColumnKept(was, now, h)
  }

  // nextHop holds, for every host, every equal-cost next hop exactly once, and nothing else.
  ghost predicate Routed(g: Network, nextHop: NextHops) {
    && (forall n: Node, h: Node :: g.IsHost(h) ==> g.CorrectHops(h, n, Hops(nextHop, n, h)))
    && (forall n: Node, h: Node :: !g.IsHost(h) ==> Hops(nextHop, n, h) == [])
  }

  // Rows and columns are container nodes.
  ghost predicate KeysOk(nextHop: NextHops, size: nat) {
    forall n :: n in nextHop ==> n < size && forall h :: h in nextHop[n] ==> h < size
  }

  ghost predicate HopsStored(was: NextHops, now: NextHops, h: Node, hops: map<Node, seq<Node>>) {
    && (forall n: Node :: Hops(now, n, h) == Hops(was, n, h) + Row(hops, n))
    && (forall k: Node :: k != h ==> ColumnKept(was, now, k))
  }

  lemma PushStored(was: NextHops, now: NextHops, n: Node, h: Node, m: Node, hops: map<Node, seq<Node>>, size: nat)
    requires HopsStored(was, now, h, hops) && KeysOk(now, size) && n < size && h < size
    ensures HopsStored(was, Push(now, n, h, m), h, hops[n := Row(hops, n) + [m]])
    ensures KeysOk(Push(now, n, h, m), size)
  {
    var now' := Push(now, n, h, m);
    forall a: Node, k: Node
      ensures Hops(now', a, k) == if a == n && k == h then Hops(now, n, h) + [m] else Hops(now, a, k)
    {
    }
    forall a: Node ensures Hops(now', a, h) == Hops(was, a, h) + Row(hops[n := Row(hops, n) + [m]], a) {
      assert Hops(now, a, h) == Hops(was, a, h) + Row(hops, a);
    }
    forall k: Node | k != h ensures ColumnKept(was, now', k) {
      assert ColumnKept(was, now, k);
    }
  }

  lemma StoredAppends(g: Network, h: Node, was: NextHops, now: NextHops, hops: map<Node, seq<Node>>)
    requires HopsStored(was, now, h, hops) && forall n: Node :: g.CorrectHops(h, n, Row(hops, n))
    ensures ColumnAppended(g, was, now, h)
  {
    hide Network.CorrectHops;
    forall n: Node ensures g.CorrectHops(h, n, Hops(now, n, h)[|Hops(was, n, h)|..]) {
      assert Hops(now, n, h)[|Hops(was, n, h)|..] == Row(hops, n);
    }
  }

  // ---- what they promise about the recorded delays ----

  datatype Pairs = Pairs(delay: Matrix, tx: Matrix, bw: Matrix) {
    ghost function At(n: Node, h: Node): Metric {
      Metric(Get2(delay, n, h), Get2(tx, n, h), Get2(bw, n, h))
    }
  }

  // m is measured along one shortest walk from h to n.
  ghost predicate Recorded(g: Network, payload: U32, h: Node, n: Node, m: Metric) {
    exists p :: g.Shortest(h, n, p) && PathMetric(g.nbr, payload, p) == m
  }

  // Column h holds measures of a shortest walk for each node h reaches; other entries are kept.
  ghost predicate ColumnRecorded(g: Network, payload: U32, was: Pairs, now: Pairs, h: Node) {
    && (forall n: Node :: g.Reachable(h, n) ==> Recorded(g, payload, h, n, now.At(n, h)))
    && (forall n: Node :: !g.Reachable(h, n) ==> now.At(n, h) == was.At(n, h))
  }

  ghost predicate PairsKept(was: Pairs, now: Pairs, h: Node) {
    forall n: Node :: now.At(n, h) == was.At(n, h)
  }

  ghost predicate PairsRecorded(g: Network, payload: U32, was: Pairs, now: Pairs, upTo: nat) {
    forall h: Node ::
      if h < upTo && g.IsHost(h) then ColumnRecorded(g, payload, was, now, h) else PairsKept(was, now, h)
  }

  // The labels cover exactly the nodes a walk reaches, and each is measured along a shortest walk.
  ghost predicate SearchResult(g: Network, payload: U32, h: Node, s: Search) {
    && s.delay.Keys == s.dis.Keys && s.txDelay.Keys == s.dis.Keys && s.bw.Keys == s.dis.Keys
    && (forall n: Node :: n in s.dis <==> g.Reachable(h, n))
    && (forall n: Node :: n in s.dis ==> Recorded(g, payload, h, n, Metric(s.delay[n], s.txDelay[n], s.bw[n])))
  }

  // Column h of r is col, and below it what m had.
  ghost predicate ColumnIs(m: Matrix, r: Matrix, col: map<Node, U64>, h: Node) {
    && (forall n: Node :: Get2(r, n, h) == if n in col then col[n] else Get2(m, n, h))
    && (forall n: Node, k: Node {:trigger Get2(r, n, k)} :: k != h ==> Get2(r, n, k) == Get2(m, n, k))
  }

  // for (auto it : col) m[it.first][host] = it.second, in any order
  method RecordColumn(m: Matrix, col: map<Node, U64>, host: Node) returns (r: Matrix)
    ensures ColumnIs(m, r, col, host)
  {
    r := m;
    var todo := col.Keys;
    while todo != {}
      invariant todo <= col.Keys
      invariant forall n: Node :: Get2(r, n, host) == if n in col && n !in todo then col[n] else Get2(m, n, host)
      invariant forall n: Node, k: Node {:trigger Get2(r, n, k)} :: k != host ==> Get2(r, n, k) == Get2(m, n, k)
    {
      var n :| n in todo;
      todo := todo - {n};
      forall a: Node, b: Node
        ensures Get2(Put2(r, n, host, col[n]), a, b) == if a == n && b == host then col[n] else Get2(r, a, b)
      {
        GetPut(r, n, host, col[n], a, b);
      }
      r := Put2(r, n, host, col[n]);
    }
  }

  lemma ColumnDone(g: Network, payload: U32, h: Node, s: Search, was: Pairs, now: Pairs)
    requires SearchResult(g, payload, h, s)
    requires ColumnIs(was.delay, now.delay, s.delay, h) && ColumnIs(was.tx, now.tx, s.txDelay, h)
    requires ColumnIs(was.bw, now.bw, s.bw, h)
    ensures ColumnRecorded(g, payload, was, now, h)
    ensures forall k: Node :: k != h ==> PairsKept(was, now, k)
  {
    hide Recorded, Network.Reachable;
  }

  // What the finished search means for the recorded routes and labels.
  lemma SearchDone(g: Network, h: Node, payload: U32, s: Search, w: Witness, was: NextHops, now: NextHops)
    requires SearchOk(g, h, payload, s, w, |s.q|, {}) && HopsStored(was, now, h, w.hops)
    ensures ColumnAppended(g, was, now, h) && SearchResult(g, payload, h, s)
  {
    hide *;
    LabelsDone(g, h, payload, s, w);
    forall n: Node ensures g.CorrectHops(h, n, Row(w.hops, n)) {
      HopsDone(g, h, payload, s, w, n);
    }
    StoredAppends(g, h, was, now, w.hops);
  }

  lemma LabelsDone(g: Network, h: Node, payload: U32, s: Search, w: Witness)
    requires SearchOk(g, h, payload, s, w, |s.q|, {})
    ensures SearchResult(g, payload, h, s)
  {
    hide Network.IsDist, Network.Reachable, Network.Shortest, Recorded, QueueOk, Near, RelaxedUpTo, HopsOk, Label;
    DistancesDone(g, h, payload, s, w);
    forall n: Node ensures g.Reachable(h, n) <==> n in s.dis {
      ReachableIffDist(g, h, n);
      if n in s.dis {
        assert g.IsDist(h, n, s.dis[n]);
      }
    }
    forall n: Node | n in s.dis ensures Recorded(g, payload, h, n, Metric(s.delay[n], s.txDelay[n], s.bw[n])) {
      LabelRecorded(g, h, payload, s, w, n);
    }
  }

  lemma LabelRecorded(g: Network, h: Node, payload: U32, s: Search, w: Witness, n: Node)
    requires LabelsOk(g, h, payload, s, w.walks) && n in s.dis && g.Shortest(h, n, w.walks[n])
    ensures Recorded(g, payload, h, n, Metric(s.delay[n], s.txDelay[n], s.bw[n]))
  {
    hide Network.Shortest;
  }

  // ---- forwarding tables ----

  function RowOf(row: map<Node, seq<Node>>, h: Node): seq<Node> {
    if h in row then row[h] else []
  }

  function RowsOf(nextHop: NextHops, n: Node): map<Node, seq<Node>> {
    if n in nextHop then nextHop[n] else map[]
  }

  // The ports towards destination h, if it has the address addr.
  ghost function PortsFor(nbr: Links, n: Node, row: map<Node, seq<Node>>, addr: U32, h: Node): seq<U32> {
    if h < U32_SIZE && NodeIdToIp(h) == addr then PortList(nbr, n, RowOf(row, h)) else []
  }

  // What n's next hops add to the row of addr when its destinations are taken in the given order:
  // the ports towards each destination that has this address, one destination after the other.
  ghost function Merged(nbr: Links, n: Node, row: map<Node, seq<Node>>, order: seq<Node>, addr: U32): seq<U32> {
    if order == [] then []
    else
      var k := |order| - 1;
      Merged(nbr, n, row, order[..k], addr) + PortsFor(nbr, n, row, addr, order[k])
  }

  ghost predicate Lists(order: seq<Node>, keys: set<Node>) {
    NoDup(order) && forall h :: h in order <==> h in keys
  }

  // Table now is table was with the ports towards the destinations of order appended.
  ghost predicate RowsAdded(nbr: Links, n: Node, row: map<Node, seq<Node>>, order: seq<Node>, was: Table, now: Table) {
    forall addr :: Ports(now, addr) == Ports(was, addr) + Merged(nbr, n, row, order, addr)
  }

  // ... with those of every destination, taken in some order.
  ghost predicate TableAppended(nbr: Links, n: Node, row: map<Node, seq<Node>>, was: Table, now: Table) {
    exists order :: Lists(order, row.Keys) && RowsAdded(nbr, n, row, order, was, now)
  }

  ghost predicate TablesAppended(g: Network, nextHop: NextHops, was: seq<Table>, now: seq<Table>) {
    && |was| == |now| == |g.kind|
    && (forall n: Node :: n < |g.kind| ==> TableAppended(g.nbr, n, RowsOf(nextHop, n), was[n], now[n]))
  }

  // The tables are the images of the next hops, and nothing else.
  ghost predicate TablesMatch(g: Network, nextHop: NextHops, tables: seq<Table>) {
    && |tables| == |g.kind|
    && (forall n: Node :: n < |g.kind| ==> TableAppended(g.nbr, n, RowsOf(nextHop, n), map[], tables[n]))
  }

  lemma RowAdded(nbr: Links, n: Node, row: map<Node, seq<Node>>, order: seq<Node>, was: Table, now: Table, dst: Node,
                 next: Table)
    requires dst < U32_SIZE && dst in row && RowsAdded(nbr, n, row, order, was, now)
    requires forall addr ::
               Ports(next, addr) ==
               Ports(now, addr) + if addr == NodeIdToIp(dst) then PortList(nbr, n, row[dst]) else []
    ensures RowsAdded(nbr, n, row, order + [dst], was, next)
  {
    hide NodeIdToIp, Ports, PortList;
    assert (order + [dst])[..|order|] == order;
  }

  lemma NoneAdded(nbr: Links, n: Node, row: map<Node, seq<Node>>, table: Table)
    ensures RowsAdded(nbr, n, row, [], table, table)
  {
  }

  lemma NoRows(nbr: Links, n: Node, table: Table)
    ensures TableAppended(nbr, n, map[], table, table)
  {
    var none: map<Node, seq<Node>> := map[];
    assert Lists([], none.Keys);
    assert RowsAdded(nbr, n, map[], [], table, table);
  }

  lemma {:induction false} MergedMembers(nbr: Links, n: Node, row: map<Node, seq<Node>>, order: seq<Node>, addr: U32,
                                         port: U32)
    ensures port in Merged(nbr, n, row, order, addr) <==>
            exists k :: k in order && k < U32_SIZE && NodeIdToIp(k) == addr && port in PortList(nbr, n, RowOf(row, k))
  {
    hide NodeIdToIp, PortList;
    if order != [] {
      var j := |order| - 1;
      assert order == order[..j] + [order[j]] && order[j] in order;
      MergedMembers(nbr, n, row, order[..j], addr, port);
    }
  }

  // A row holds exactly the ports towards the hosts with its address, be they one or several.
  lemma RowMeaning(s: Snapshot, n: Node, addr: U32, port: U32)
    requires Consistent(s) && n < |s.net.kind| <= U32_SIZE
    ensures port in Ports(s.tables[n], addr) <==>
            exists h: Node ::
              s.net.IsHost(h) && NodeIdToIp(h) == addr && port in PortList(s.net.nbr, n, Hops(s.nextHop, n, h))
  {
    hide NodeIdToIp, Network.CorrectHops, Ports;
    var row := RowsOf(s.nextHop, n);
    assert TableAppended(s.net.nbr, n, row, map[], s.tables[n]);
    var order :| Lists(order, row.Keys) && RowsAdded(s.net.nbr, n, row, order, map[], s.tables[n]);
    EmptyPorts(addr);
    MergedMembers(s.net.nbr, n, row, order, addr, port);
    assert forall h: Node :: Hops(s.nextHop, n, h) == RowOf(row, h);
  }

  // No other host shares h's address.
  ghost predicate OwnAddress(g: Network, h: Node) {
    h < U32_SIZE && forall k: Node :: g.IsHost(k) && k < U32_SIZE && NodeIdToIp(k) == NodeIdToIp(h) ==> k == h
  }

  // That is so exactly when no other host's id agrees with h's modulo 2^24, hence always among
  // at most 2^24 nodes.
  lemma OwnAddressIff(g: Network, h: Node)
    requires h < |g.kind| <= U32_SIZE
    ensures OwnAddress(g, h) <==> forall k: Node :: g.IsHost(k) && k % 0x100_0000 == h % 0x100_0000 ==> k == h
    ensures |g.kind| <= 0x100_0000 ==> OwnAddress(g, h)
  {
    hide NodeIdToIp;
    forall k: Node | g.IsHost(k) ensures NodeIdToIp(k) == NodeIdToIp(h) <==> k % 0x100_0000 == h % 0x100_0000 {
      CollisionIff(k, h);
    }
  }

  // Then the row of that address holds the ports towards h alone.
  lemma OwnRow(s: Snapshot, h: Node, n: Node)
    requires Consistent(s) && OwnAddress(s.net, h) && n < |s.net.kind|
    ensures Ports(s.tables[n], NodeIdToIp(h)) == PortList(s.net.nbr, n, Hops(s.nextHop, n, h))
  {
    hide NodeIdToIp, PortList, Network.CorrectHops, Ports;
    var row := RowsOf(s.nextHop, n);
    assert TableAppended(s.net.nbr, n, row, map[], s.tables[n]);
    var order :| Lists(order, row.Keys) && RowsAdded(s.net.nbr, n, row, order, map[], s.tables[n]);
    EmptyPorts(NodeIdToIp(h));
    PortListEmpty(s.net.nbr, n);
    assert Hops(s.nextHop, n, h) == RowOf(row, h);
    forall k | k in order && k != h && k < U32_SIZE && NodeIdToIp(k) == NodeIdToIp(h) ensures row[k] == [] {
      assert !s.net.IsHost(k) && Hops(s.nextHop, n, k) == row[k];
    }
    MergedAlone(s.net.nbr, n, row, order, h);
    assert h in order <==> h in row;
  }

  lemma EmptyPorts(addr: U32)
    ensures Ports(map[], addr) == []
  {
  }

  lemma {:induction false} MergedAlone(nbr: Links, n: Node, row: map<Node, seq<Node>>, order: seq<Node>, h: Node)
    requires NoDup(order) && h < U32_SIZE && forall k :: k in order ==> k in row
    requires forall k :: k in order && k != h && k < U32_SIZE && NodeIdToIp(k) == NodeIdToIp(h) ==> row[k] == []
    ensures Merged(nbr, n, row, order, NodeIdToIp(h)) == if h in order then PortList(nbr, n, row[h]) else []
  {
    hide NodeIdToIp, PortList;
    PortListEmpty(nbr, n);
    if order != [] {
      var k := |order| - 1;
      assert order[k] in order && order == order[..k] + [order[k]];
      MergedAlone(nbr, n, row, order[..k], h);
    }
  }

  // The node objects: their kinds, and the forwarding tables the nodes own.
  class NodeContainer {
    const kind: seq<NodeKind>
    var table: seq<Table>

    ghost predicate Valid() reads this { |table| == |kind| }

    constructor (kind: seq<NodeKind>)
      ensures Valid() && this.kind == kind
      ensures forall i :: 0 <= i < |table| ==> table[i] == map[]
    {
      this.kind := kind;
      table := seq(|kind|, i => map[]);
    }

    method AddTableEntry(n: Node, addr: U32, port: U32)
      requires Valid() && n < |kind|
      modifies this
      ensures Valid() && table == old(table)[n := AddPort(old(table)[n], addr, port)]
    {
      table := table[n := AddPort(table[n], addr, port)];
    }

    method ClearTable(n: Node)
      requires Valid() && n < |kind|
      modifies this
      ensures Valid() && table == old(table)[n := map[]]
    {
      table := table[n := map[]];
    }
  }

  class TopologyState {
    var nbr2if: Links
    var nextHop: NextHops
    var pairDelay: Matrix
    var pairTxDelay: Matrix
    var pairBw: Matrix
    var pairBdp: Matrix
    var pairRtt: Matrix
    var maxRtt: U64
    var maxBdp: U64
    var packetPayloadSize: U32

    constructor (payload: U32)
      ensures nbr2if == map[] && nextHop == map[] && packetPayloadSize == payload
      ensures pairDelay == map[] && pairTxDelay == map[] && pairBw == map[]
    {
      nbr2if, nextHop := map[], map[];
      pairDelay, pairTxDelay, pairBw, pairBdp, pairRtt := map[], map[], map[], map[], map[];
      maxRtt, maxBdp, packetPayloadSize := 0, 0, payload;
    }

    ghost function Graph(nodes: NodeContainer): Network reads this {
      Network(nodes.kind, nbr2if)
    }

    ghost function PairsNow(): Pairs reads this {
      Pairs(pairDelay, pairTxDelay, pairBw)
    }

    ghost predicate Valid(nodes: NodeContainer) reads this {
      Graph(nodes).InRange() && KeysOk(nextHop, |nodes.kind|)
    }

    // For every order in which the neighbours of a node are visited, the search ends, appends
    // the equal-cost next hops towards host, and records measures of one shortest walk.
    method CalculateRoute(nodes: NodeContainer, host: Node)
      requires Valid(nodes) && host < |nodes.kind|
      modifies this`nextHop, this`pairDelay, this`pairTxDelay, this`pairBw
      ensures Valid(nodes)
      ensures ColumnAppended(Graph(nodes), old(nextHop), nextHop, host)
      ensures forall k: Node :: k != host ==> ColumnKept(old(nextHop), nextHop, k)
      ensures ColumnRecorded(Graph(nodes), packetPayloadSize, old(PairsNow()), PairsNow(), host)
      ensures forall k: Node :: k != host ==> PairsKept(old(PairsNow()), PairsNow(), k)
    {
      hide SearchResult, ColumnAppended, ColumnKept, ColumnRecorded, PairsKept, ColumnIs, KeysOk;
      var s := SearchFrom(nodes, host);
      var delays := RecordColumn(pairDelay, s.delay, host);
      var txDelays := RecordColumn(pairTxDelay, s.txDelay, host);
      var bws := RecordColumn(pairBw, s.bw, host);
      ColumnDone(Graph(nodes), packetPayloadSize, host, s, PairsNow(), Pairs(delays, txDelays, bws));
      pairDelay, pairTxDelay, pairBw := delays, txDelays, bws;
    }

    // The search loop of CalculateRoute.
    method SearchFrom(nodes: NodeContainer, host: Node) returns (s: Search)
      requires Valid(nodes) && host < |nodes.kind|
      modifies this`nextHop
      ensures Valid(nodes)
      ensures ColumnAppended(Graph(nodes), old(nextHop), nextHop, host)
      ensures forall k: Node :: k != host ==> ColumnKept(old(nextHop), nextHop, k)
      ensures SearchResult(Graph(nodes), packetPayloadSize, host, s)
    {
      hide SearchOk, SearchResult, ColumnAppended, KeysOk;
      ghost var g, payload := Graph(nodes), packetPayloadSize;
      StartOk(g, host, payload);
      s := Start(host);
      ghost var w := Witness(map[host := [host]], {}, map[]);
      var i := 0;
      while i < |s.q|
        invariant SearchOk(g, host, payload, s, w, i, if i < |s.q| then KeysOf(nbr2if, s.q[i]) else {})
        invariant HopsStored(old(nextHop), nextHop, host, w.hops) && KeysOk(nextHop, |nodes.kind|)
        invariant i <= |s.q|
        decreases |nodes.kind| - i
      {
        SearchFacts(g, host, payload, s, w, i, KeysOf(nbr2if, s.q[i]));
        s, w := VisitNeighbours(nodes, host, s, w, i, old(nextHop));
        SearchFacts(g, host, payload, s, w, i, {});
        AdvanceOk(g, host, payload, s, w, i);
        i := i + 1;
      }
      SearchDone(g, host, payload, s, w, old(nextHop), nextHop);
    }

    // The inner loop of CalculateRoute: the neighbours of q[i], in any order.
    method VisitNeighbours(nodes: NodeContainer, host: Node, s0: Search, ghost w0: Witness, i: nat, ghost was: NextHops)
      returns (s: Search, ghost w: Witness)
      requires Valid(nodes) && host < |nodes.kind| && i < |s0.q|
      requires SearchOk(Graph(nodes), host, packetPayloadSize, s0, w0, i, KeysOf(nbr2if, s0.q[i]))
      requires HopsStored(was, nextHop, host, w0.hops)
      modifies this`nextHop
      ensures Valid(nodes)
      ensures i < |s.q| && SearchOk(Graph(nodes), host, packetPayloadSize, s, w, i, {})
      ensures HopsStored(was, nextHop, host, w.hops)
    {
      hide SearchOk, HopsStored, KeysOk;
      ghost var g, payload := Graph(nodes), packetPayloadSize;
      s, w := s0, w0;
      var now := s.q[i];
      var todo := KeysOf(nbr2if, now);
      while todo != {}
        invariant todo <= KeysOf(nbr2if, now) && i < |s.q| && s.q[i] == now
        invariant SearchOk(g, host, payload, s, w, i, todo)
        invariant HopsStored(was, nextHop, host, w.hops) && KeysOk(nextHop, |nodes.kind|)
      {
        var next :| next in todo;
        assert todo == todo - {next} + {next};
        todo := todo - {next};
        var it := nbr2if[now][next];
        if !it.up {
          SkipOk(g, host, payload, s, w, i, todo, next);
          continue;
        }
        assert g.Up(now, next);
        s, w := LabelNew(nodes, host, s, w, i, todo + {next}, next);
        RelaxOk(g, host, payload, s, w, i, todo, next);
        ghost var hops := w.hops;
        w := Tight(s, w, now, next);
        if s.dis[now] + 1 == s.dis[next] {
          PushStored(was, nextHop, next, host, now, hops, |nodes.kind|);
          nextHop := Push(nextHop, next, host, now);
        }
      }
    }

    // The first half of the inner loop's body: label next if it has not been seen before.
    method LabelNew(nodes: NodeContainer, host: Node, s0: Search, ghost w0: Witness, i: nat, ghost todo: set<Node>,
                    next: Node)
      returns (s: Search, ghost w: Witness)
      requires Graph(nodes).InRange() && host < |nodes.kind| && i < |s0.q|
      requires SearchOk(Graph(nodes), host, packetPayloadSize, s0, w0, i, todo)
      requires Graph(nodes).Up(s0.q[i], next)
      ensures i < |s.q| && s.q[i] == s0.q[i] && s.q[i] in s.dis && next in s.dis && w.hops == w0.hops
      ensures SearchOk(Graph(nodes), host, packetPayloadSize, s, w, i, todo)
    {
      s, w := s0, w0;
      assert s.q[i] in s.q;
      if next !in s.dis {
        var now := s.q[i];
        var it := nbr2if[now][next];
        var m := Metric(s.delay[now], s.txDelay[now], s.bw[now]);
        LabelExtend(Graph(nodes), host, packetPayloadSize, now, next, w.walks[now], s.dis[now], m);
        m := Extend(m, packetPayloadSize, it);
        s := Found(s, now, next, m, nodes.kind[next] == Switch);
        DiscoverOk(Graph(nodes), host, packetPayloadSize, s0, w, i, todo, next, w.walks[now] + [next], m, s);
        w := w.(walks := w.walks[next := w.walks[now] + [next]]);
      }
    }

    // One search per host; the columns of hosts are appended to, whatever nextHop held before.
    method CalculateRoutes(nodes: NodeContainer)
      requires Valid(nodes)
      modifies this`nextHop, this`pairDelay, this`pairTxDelay, this`pairBw
      ensures Valid(nodes)
      ensures RoutesAppended(Graph(nodes), old(nextHop), nextHop, |nodes.kind|)
      ensures PairsRecorded(Graph(nodes), packetPayloadSize, old(PairsNow()), PairsNow(), |nodes.kind|)
    {
      hide KeysOk, Network.InRange;
      ghost var g, payload := Graph(nodes), packetPayloadSize;
      for i := 0 to |nodes.kind|
        invariant Valid(nodes)
        invariant RoutesAppended(g, old(nextHop), nextHop, i)
        invariant PairsRecorded(g, payload, old(PairsNow()), PairsNow(), i)
      {
        if nodes.kind[i] == Host {
          ghost var hops, pairs := nextHop, PairsNow();
          CalculateRoute(nodes, i);
          RoutesStep(g, old(nextHop), hops, nextHop, i);
          PairsStep(g, payload, old(PairsNow()), pairs, PairsNow(), i);
        } else {
          assert !g.IsHost(i);
          RoutesSkip(g, old(nextHop), nextHop, i);
          PairsSkip(g, payload, old(PairsNow()), PairsNow(), i);
        }
      }
    }

    // The innermost loop of SetRoutingEntries: the interfaces of one node towards one host.
    method AddRoutes(nodes: NodeContainer, node: Node, dst: Node)
      requires nodes.Valid() && node < |nodes.kind| && dst < |nodes.kind| <= U32_SIZE
      requires node in nextHop && dst in nextHop[node]
      modifies nodes
      ensures nodes.Valid() && forall m: Node :: m < |nodes.kind| && m != node ==> nodes.table[m] == old(nodes.table)[m]
      ensures forall addr :: Ports(nodes.table[node], addr) ==
                Ports(old(nodes.table)[node], addr) +
                if addr == NodeIdToIp(dst) then PortList(nbr2if, node, nextHop[node][dst]) else []
    {
      hide Ports, AddPort, PortList, NodeIdToIp;
      var dstAddr := NodeIdToIp(dst);
      PortListEmpty(nbr2if, node);
      var nexts := nextHop[node][dst];
      for k := 0 to |nexts|
        invariant nodes.Valid() && forall m: Node :: m < |nodes.kind| && m != node ==>
                  nodes.table[m] == old(nodes.table)[m]
        invariant forall addr :: Ports(nodes.table[node], addr) ==
                    Ports(old(nodes.table)[node], addr) +
                    if addr == dstAddr then PortList(nbr2if, node, nexts[..k]) else []
      {
        var port := At(nbr2if, node, nexts[k]).idx;
        AddPortPorts(nodes.table[node], dstAddr, port);
        PortListSnoc(nbr2if, node, nexts[..k], nexts[k]);
        assert nexts[..k + 1] == nexts[..k] + [nexts[k]];
        nodes.AddTableEntry(node, dstAddr, port);
      }
      assert nexts[..|nexts|] == nexts;
    }

    // The middle loop: every destination in the table of one node, in any order.
    method AddTable(nodes: NodeContainer, node: Node)
      requires nodes.Valid() && node < |nodes.kind| <= U32_SIZE && KeysOk(nextHop, |nodes.kind|) && node in nextHop
      modifies nodes
      ensures nodes.Valid() && forall m: Node :: m < |nodes.kind| && m != node ==> nodes.table[m] == old(nodes.table)[m]
      ensures TableAppended(nbr2if, node, nextHop[node], old(nodes.table)[node], nodes.table[node])
    {
      hide NodeIdToIp, PortList, Ports, RowsAdded;
      var row := nextHop[node];
      var todo := row.Keys;
      ghost var order: seq<Node> := [];
      NoneAdded(nbr2if, node, row, nodes.table[node]);
      while todo != {}
        invariant todo <= row.Keys && Lists(order, row.Keys - todo)
        invariant nodes.Valid()
        invariant forall m: Node :: m < |nodes.kind| && m != node ==> nodes.table[m] == old(nodes.table)[m]
        invariant RowsAdded(nbr2if, node, row, order, old(nodes.table)[node], nodes.table[node])
      {
        var dst :| dst in todo;
        ghost var mid := nodes.table[node];
        AddRoutes(nodes, node, dst);
        RowAdded(nbr2if, node, row, order, old(nodes.table)[node], mid, dst, nodes.table[node]);
        todo := todo - {dst};
        order := order + [dst];
      }
      assert row.Keys - {} == row.Keys;
    }

    // Every table grows by the images of its node's next hops, whatever order the maps are walked in.
    method SetRoutingEntries(nodes: NodeContainer)
      requires nodes.Valid() && |nodes.kind| <= U32_SIZE && KeysOk(nextHop, |nodes.kind|)
      modifies nodes
      ensures nodes.Valid()
      ensures TablesAppended(Graph(nodes), nextHop, old(nodes.table), nodes.table)
    {
      hide TableAppended;
      var todo := nextHop.Keys;
      while todo != {}
        invariant todo <= nextHop.Keys && nodes.Valid()
        invariant forall n: Node :: n < |nodes.kind| && (n in todo || n !in nextHop) ==>
                    nodes.table[n] == old(nodes.table)[n]
        invariant forall n: Node :: n in nextHop && n !in todo ==>
                    TableAppended(nbr2if, n, nextHop[n], old(nodes.table)[n], nodes.table[n])
      {
        var n :| n in todo;
        todo := todo - {n};
        AddTable(nodes, n);
      }
      forall n: Node | n < |nodes.kind|
        ensures TableAppended(nbr2if, n, RowsOf(nextHop, n), old(nodes.table)[n], nodes.table[n])
      {
        if n !in nextHop {
          NoRows(nbr2if, n, nodes.table[n]);
        }
      }
    }

    method ClearTables(nodes: NodeContainer)
      requires nodes.Valid()
      modifies nodes
      ensures nodes.Valid() && nodes.table == EmptyTables(|nodes.kind|)
    {
      for i := 0 to |nodes.kind|
        invariant nodes.Valid() && forall k :: 0 <= k < i ==> nodes.table[k] == map[]
      {
        nodes.ClearTable(i);
      }
    }

    // A call on a link that is absent or down only leaves a default entry behind. Otherwise both
    // directions go down, and next hops and tables are rebuilt for the links that remain.
    method TakeDownLink(nodes: NodeContainer, a: Node, b: Node)
      requires Valid(nodes) && nodes.Valid() && |nodes.kind| <= U32_SIZE
      modifies this`nbr2if, this`nextHop, this`pairDelay, this`pairTxDelay, this`pairBw, nodes
      ensures Valid(nodes) && nodes.Valid()
      ensures TakenDown(Snapshot(old(Graph(nodes)), old(nextHop), old(nodes.table)),
                        Snapshot(Graph(nodes), nextHop, nodes.table), a, b)
      ensures if old(Graph(nodes)).Up(a, b) then
                PairsRecorded(Graph(nodes), packetPayloadSize, old(PairsNow()), PairsNow(), |nodes.kind|)
              else
                PairsNow() == old(PairsNow())
    {
      hide Routed, TablesMatch, TablesAppended, RoutesAppended, KeysOk, PairsRecorded;
      hide Network.InRange, Without, KeepsInterfaces, SetDown, EmptyTables;
      ghost var before := Graph(nodes);
      nbr2if := Touch(nbr2if, a, b);
      TouchKeepsLinks(before, a, b);
      if !nbr2if[a][b].up {
        return;
      }
      DownLinks(before, a, b);
      nbr2if := SetDown(SetDown(Touch(nbr2if, b, a), b, a), a, b);
      nextHop := map[];
      EmptyKeysOk(|nodes.kind|);
      CalculateRoutes(nodes);
      FreshRouted(Graph(nodes), nextHop);
      ClearTables(nodes);
      SetRoutingEntries(nodes);
      FreshTables(Graph(nodes), nextHop, nodes.table);
    }
  }

  lemma EmptyKeysOk(size: nat)
    ensures KeysOk(map[], size)
  {
  }

  function EmptyTables(size: nat): seq<Table> {
    seq(size, i => map[])
  }

  // ---- states of the network, and what TakeDownLink does to them ----

  datatype Snapshot = Snapshot(net: Network, nextHop: NextHops, tables: seq<Table>)

  // What nextHop and the tables are for the links of net, whichever way they were computed.
  ghost predicate Consistent(s: Snapshot) {
    Routed(s.net, s.nextHop) && TablesMatch(s.net, s.nextHop, s.tables)
  }

  // f is g without the links between a and b.
  ghost predicate Without(g: Network, f: Network, a: Node, b: Node) {
    && f.kind == g.kind
    && (forall x: Node, y: Node :: f.Up(x, y) <==> g.Up(x, y) && !(x == a && y == b) && !(x == b && y == a))
    && KeepsInterfaces(g, f)
  }

  // Interfaces keep their attributes; entries that appear are default-constructed.
  ghost predicate KeepsInterfaces(g: Network, f: Network) {
    forall x: Node, y: Node :: At(f.nbr, x, y).(up := true) == At(g.nbr, x, y).(up := true)
  }

  ghost predicate TakenDown(s: Snapshot, t: Snapshot, a: Node, b: Node) {
    if s.net.Up(a, b) then
      Without(s.net, t.net, a, b) && Consistent(t)
    else
      SameLinks(s.net, t.net) && KeepsInterfaces(s.net, t.net) && t.nextHop == s.nextHop && t.tables == s.tables
  }

  // nbr2if[a][b] of an absent entry creates a default one, which is down.
  function Touch(nbr: Links, a: Node, b: Node): (r: Links)
    ensures a in r && b in r[a]
    ensures forall x, y :: x in nbr && y in nbr[x] ==> x in r && y in r[x]
  {
    PutLink(nbr, a, b, At(nbr, a, b))
  }

  function SetDown(nbr: Links, a: Node, b: Node): (r: Links)
    requires a in nbr && b in nbr[a]
    ensures forall x, y :: x in nbr && y in nbr[x] ==> x in r && y in r[x]
  {
    PutLink(nbr, a, b, nbr[a][b].(up := false))
  }

  lemma PutLinkAt(nbr: Links, a: Node, b: Node, it: Interface, x: Node, y: Node)
    ensures At(PutLink(nbr, a, b, it), x, y) == if x == a && y == b then it else At(nbr, x, y)
  {
  }

  lemma TouchKeepsLinks(g: Network, a: Node, b: Node)
    ensures var f := Network(g.kind, Touch(g.nbr, a, b));
            SameLinks(g, f) && KeepsInterfaces(g, f) && (g.InRange() ==> f.InRange())
  {
    var f := Network(g.kind, Touch(g.nbr, a, b));
    forall x: Node, y: Node
      ensures At(f.nbr, x, y) == At(g.nbr, x, y) && (f.Up(x, y) <==> At(f.nbr, x, y).up) &&
              (g.Up(x, y) <==> At(g.nbr, x, y).up)
    {
      PutLinkAt(g.nbr, a, b, At(g.nbr, a, b), x, y);
    }
    if g.InRange() {
      forall x: Node, y: Node | f.Up(x, y) ensures x < |f.kind| && y < |f.kind| && f.nbr[x][y].bw > 0 {
        assert g.Up(x, y) && At(f.nbr, x, y) == f.nbr[x][y] && At(g.nbr, x, y) == g.nbr[x][y];
      }
    }
  }

  lemma DownLinks(g: Network, a: Node, b: Node)
    ensures var f := Network(g.kind, SetDown(SetDown(Touch(Touch(g.nbr, a, b), b, a), b, a), a, b));
            Without(g, f, a, b) && (g.InRange() ==> f.InRange())
  {
    var n1 := Touch(g.nbr, a, b);
    var n2 := Touch(n1, b, a);
    var n3 := SetDown(n2, b, a);
    var f := Network(g.kind, SetDown(n3, a, b));
    forall x: Node, y: Node
      ensures At(f.nbr, x, y) ==
              if (x == a && y == b) || (x == b && y == a) then At(g.nbr, x, y).(up := false) else At(g.nbr, x, y)
      ensures (f.Up(x, y) <==> At(f.nbr, x, y).up) && (g.Up(x, y) <==> At(g.nbr, x, y).up)
    {
      PutLinkAt(g.nbr, a, b, At(g.nbr, a, b), x, y);
      PutLinkAt(n1, b, a, At(n1, b, a), x, y);
      PutLinkAt(n2, b, a, n2[b][a].(up := false), x, y);
      PutLinkAt(n3, a, b, n3[a][b].(up := false), x, y);
      PutLinkAt(g.nbr, a, b, At(g.nbr, a, b), b, a);
      PutLinkAt(g.nbr, a, b, At(g.nbr, a, b), a, b);
      PutLinkAt(n1, b, a, At(n1, b, a), a, b);
      PutLinkAt(n2, b, a, n2[b][a].(up := false), a, b);
    }
    if g.InRange() {
      forall x: Node, y: Node | f.Up(x, y) ensures x < |f.kind| && y < |f.kind| && f.nbr[x][y].bw > 0 {
        assert g.Up(x, y) && At(f.nbr, x, y) == f.nbr[x][y] && At(g.nbr, x, y) == g.nbr[x][y];
      }
    }
  }

  // Appending to empty next hops and empty tables is computing them afresh.
  lemma FreshRouted(g: Network, nextHop: NextHops)
    requires RoutesAppended(g, map[], nextHop, |g.kind|)
    ensures Routed(g, nextHop)
  {
    hide Network.CorrectHops;
    forall n: Node, h: Node | g.IsHost(h) ensures g.CorrectHops(h, n, Hops(nextHop, n, h)) {
      assert ColumnAppended(g, map[], nextHop, h);
      assert Hops(nextHop, n, h)[|Hops(map[], n, h)|..] == Hops(nextHop, n, h);
    }
    forall n: Node, h: Node | !g.IsHost(h) ensures Hops(nextHop, n, h) == [] {
      assert ColumnKept(map[], nextHop, h);
    }
  }

  lemma FreshTables(g: Network, nextHop: NextHops, tables: seq<Table>)
    requires TablesAppended(g, nextHop, EmptyTables(|g.kind|), tables)
    ensures TablesMatch(g, nextHop, tables)
  {
    hide TableAppended;
    forall n: Node | n < |g.kind| ensures TableAppended(g.nbr, n, RowsOf(nextHop, n), map[], tables[n]) {
      assert TableAppended(g.nbr, n, RowsOf(nextHop, n), EmptyTables(|g.kind|)[n], tables[n]);
    }
  }

  lemma RoutesStep(g: Network, was: NextHops, mid: NextHops, now: NextHops, i: Node)
    requires RoutesAppended(g, was, mid, i) && g.IsHost(i)
    requires ColumnAppended(g, mid, now, i) && forall k: Node :: k != i ==> ColumnKept(mid, now, k)
    ensures RoutesAppended(g, was, now, i + 1)
  {
    hide Network.CorrectHops, Hops;
    assert ColumnKept(was, mid, i);
    forall h: Node
      ensures if h < i + 1 && g.IsHost(h) then ColumnAppended(g, was, now, h) else ColumnKept(was, now, h)
    {
      if h != i {
        assert ColumnKept(mid, now, h);
        assert if h < i && g.IsHost(h) then ColumnAppended(g, was, mid, h) else ColumnKept(was, mid, h);
      }
    }
  }

  lemma RoutesSkip(g: Network, was: NextHops, now: NextHops, i: Node)
    requires RoutesAppended(g, was, now, i) && !g.IsHost(i)
    ensures RoutesAppended(g, was, now, i + 1)
  {
    hide ColumnAppended, ColumnKept;
  }

  lemma PairsStep(g: Network, payload: U32, was: Pairs, mid: Pairs, now: Pairs, i: Node)
    requires PairsRecorded(g, payload, was, mid, i) && g.IsHost(i)
    requires ColumnRecorded(g, payload, mid, now, i) && forall k: Node :: k != i ==> PairsKept(mid, now, k)
    ensures PairsRecorded(g, payload, was, now, i + 1)
  {
    hide Recorded, Network.Reachable, Pairs.At;
    assert PairsKept(was, mid, i);
    forall h: Node
      ensures if h < i + 1 && g.IsHost(h) then ColumnRecorded(g, payload, was, now, h) else PairsKept(was, now, h)
    {
      if h != i {
        assert PairsKept(mid, now, h);
        assert if h < i && g.IsHost(h) then ColumnRecorded(g, payload, was, mid, h) else PairsKept(was, mid, h);
      }
    }
  }

  lemma PairsSkip(g: Network, payload: U32, was: Pairs, now: Pairs, i: Node)
    requires PairsRecorded(g, payload, was, now, i) && !g.IsHost(i)
    ensures PairsRecorded(g, payload, was, now, i + 1)
  {
    hide ColumnRecorded, PairsKept;
  }
}

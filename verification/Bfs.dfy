/** What the breadth-first search of CalculateRoute keeps while it runs, one named predicate
    per concern, with one lemma for each of the loop's two updates and one for its end. */
module Bfs {
  import opened Words
  import opened Sequences
  import opened Net

  // What operator[] of the nested map returns: a missing entry reads as a default Interface.
  function At(nbr: Links, a: Node, b: Node): Interface {
    if a in nbr && b in nbr[a] then nbr[a][b] else Interface(0, false, 0, 0)
  }

  // Serialization time of one payload in ns, in 64-bit arithmetic; up links have a rate.
  function TxTime(payload: U32, bw: U64): U64 {
    if bw == 0 then 0 else Wrap64(payload * 1_000_000_000 * 8) / bw
  }

  function Min(a: U64, b: U64): U64 { if b < a then b else a }

  // ---- what is carried along a walk ----

  // The three labels of a node: delay and transmission delay so far, and the bottleneck rate.
  datatype Metric = Metric(delay: U64, tx: U64, bw: U64)

  const START := Metric(0, 0, 0xffff_ffff_ffff_ffff)

  function Extend(m: Metric, payload: U32, it: Interface): Metric {
    Metric(Wrap64(m.delay + it.delay), Wrap64(m.tx + TxTime(payload, it.bw)), Min(m.bw, it.bw))
  }

  ghost function PathMetric(nbr: Links, payload: U32, p: seq<Node>): Metric {
    if |p| <= 1 then START
    else Extend(PathMetric(nbr, payload, p[..|p| - 1]), payload, At(nbr, p[|p| - 2], p[|p| - 1]))
  }

  lemma PathMetricExtend(nbr: Links, payload: U32, p: seq<Node>, n: Node)
    requires |p| > 0
    ensures PathMetric(nbr, payload, p + [n]) == Extend(PathMetric(nbr, payload, p), payload, At(nbr, p[|p| - 1], n))
  {
    assert (p + [n])[..|p|] == p;
  }

  // ---- the search's local variables, and ghost witnesses beside them ----

  datatype Search = Search(q: seq<Node>, dis: map<Node, nat>, delay: map<Node, U64>, txDelay: map<Node, U64>,
                           bw: map<Node, U64>)

  // A walk for every labelled node, the links looked at so far, and the next hops found so far.
  datatype Witness = Witness(walks: map<Node, seq<Node>>, relaxed: set<(Node, Node)>, hops: map<Node, seq<Node>>)

  function Row(hops: map<Node, seq<Node>>, n: Node): seq<Node> {
    if n in hops then hops[n] else []
  }

  function KeysOf(nbr: Links, n: Node): set<Node> {
    if n in nbr then nbr[n].Keys else {}
  }

  // ---- invariants ----

  // q holds each labelled node that is to be expanded once, in order of distance.
  ghost predicate QueueOk(g: Network, h: Node, q: seq<Node>, dis: map<Node, nat>) {
    && |q| > 0 && q[0] == h && h in dis && dis[h] == 0
    && NoDup(q)
    && (forall m :: m in q <==> m in dis && g.Expands(h, m))
    && (forall j, k :: 0 <= j < k < |q| ==> dis[q[j]] <= dis[q[k]])
  }

  // No label is more than one beyond the distance of the node being expanded.
  ghost predicate Near(d: nat, dis: map<Node, nat>) {
    forall n :: n in dis ==> dis[n] <= d + 1
  }

  // d and m label n: d counts the links of the walk p from h to n, and m is measured along p.
  ghost predicate Label(g: Network, h: Node, payload: U32, n: Node, p: seq<Node>, d: nat, m: Metric) {
    g.WalkTo(h, n, p) && |p| == d + 1 && m == PathMetric(g.nbr, payload, p)
  }

  ghost predicate LabelsOk(g: Network, h: Node, payload: U32, s: Search, walks: map<Node, seq<Node>>) {
    && s.delay.Keys == s.dis.Keys && s.txDelay.Keys == s.dis.Keys && s.bw.Keys == s.dis.Keys && walks.Keys == s.dis.Keys
    && (forall n :: n in s.dis ==>
          Label(g, h, payload, n, walks[n], s.dis[n], Metric(s.delay[n], s.txDelay[n], s.bw[n])))
  }

  // The links looked at so far are the up links out of q[..i], and out of q[i] those not in todo.
  ghost predicate RelaxedUpTo(g: Network, q: seq<Node>, i: nat, todo: set<Node>, relaxed: set<(Node, Node)>)
    requires i <= |q|
  {
    forall m: Node, n: Node :: (m, n) in relaxed <==>
        g.Up(m, n) && (m in q[..i] || (i < |q| && m == q[i] && n !in todo))
  }

  // Every link looked at is respected by the labels, and the hop lists are its tight links.
  ghost predicate HopsOk(dis: map<Node, nat>, relaxed: set<(Node, Node)>, hops: map<Node, seq<Node>>) {
    && (forall m, n :: (m, n) in relaxed ==> m in dis && n in dis && dis[n] <= dis[m] + 1)
    && (forall m, n :: m in Row(hops, n) <==> (m, n) in relaxed && dis[m] + 1 == dis[n])
    && (forall n :: NoDup(Row(hops, n)))
  }

  // The whole invariant, while the neighbours todo of q[i] are still to be visited.
  ghost predicate SearchOk(g: Network, h: Node, payload: U32, s: Search, w: Witness, i: nat, todo: set<Node>) {
    && i <= |s.q| <= |g.kind|
    && QueueOk(g, h, s.q, s.dis)
    && (i < |s.q| ==> Near(s.dis[s.q[i]], s.dis))
    && LabelsOk(g, h, payload, s, w.walks)
    && RelaxedUpTo(g, s.q, i, todo, w.relaxed)
    && HopsOk(s.dis, w.relaxed, w.hops)
  }

  lemma SearchFacts(g: Network, h: Node, payload: U32, s: Search, w: Witness, i: nat, todo: set<Node>)
    requires SearchOk(g, h, payload, s, w, i, todo)
    ensures i <= |s.q| <= |g.kind|
    ensures i < |s.q| ==> s.q[i] in s.dis && g.Expands(h, s.q[i])
  {
    assert i < |s.q| ==> s.q[i] in s.q;
  }

  // ---- the start, and the steps of the two loops ----

  function Start(h: Node): Search {
    Search([h], map[h := 0], map[h := START.delay], map[h := START.tx], map[h := START.bw])
  }

  lemma StartOk(g: Network, h: Node, payload: U32)
    requires h < |g.kind|
    ensures SearchOk(g, h, payload, Start(h), Witness(map[h := [h]], {}, map[]), 0, KeysOf(g.nbr, h))
  {
    assert PathMetric(g.nbr, payload, [h]) == START;
    assert g.WalkTo(h, h, [h]);
  }

  // The first visit of next, over the up link from now.
  function Found(s: Search, now: Node, next: Node, m: Metric, isSwitch: bool): Search
    requires now in s.dis
  {
    Search(if isSwitch then s.q + [next] else s.q, s.dis[next := s.dis[now] + 1],
           s.delay[next := m.delay], s.txDelay[next := m.tx], s.bw[next := m.bw])
  }

  lemma DiscoverQueue(g: Network, h: Node, s: Search, i: nat, next: Node, s': Search, m: Metric)
    requires i < |s.q| && s.q[i] in s.dis && next < |g.kind| && |s.q| <= |g.kind| && h < |g.kind|
    requires QueueOk(g, h, s.q, s.dis) && Near(s.dis[s.q[i]], s.dis)
    requires next !in s.dis && s' == Found(s, s.q[i], next, m, g.IsSwitch(next))
    ensures QueueOk(g, h, s'.q, s'.dis) && s'.q[i] == s.q[i] && Near(s'.dis[s'.q[i]], s'.dis)
    ensures |s'.q| <= |g.kind| && s'.q[..i] == s.q[..i]
  {
    assert next !in s.q;
    assert forall k :: 0 <= k < |s.q| ==> s.q[k] in s.q;
    NoDupBound(s'.q, |g.kind|);
  }

  lemma LabelExtend(g: Network, h: Node, payload: U32, now: Node, next: Node, p: seq<Node>, d: nat, m: Metric)
    requires Label(g, h, payload, now, p, d, m)
    requires g.Expands(h, now) && (now == h ==> d == 0) && g.Up(now, next)
    ensures Label(g, h, payload, next, p + [next], d + 1, Extend(m, payload, g.nbr[now][next]))
  {
    WalkExtend(g, h, now, next, p);
    PathMetricExtend(g.nbr, payload, p, next);
  }

  lemma DiscoverLabels(g: Network, h: Node, payload: U32, now: Node, next: Node, s: Search,
                       walks: map<Node, seq<Node>>, p: seq<Node>, m: Metric, s': Search, isSwitch: bool)
    requires LabelsOk(g, h, payload, s, walks) && now in s.dis && next !in s.dis
    requires s' == Found(s, now, next, m, isSwitch) && Label(g, h, payload, next, p, s.dis[now] + 1, m)
    ensures LabelsOk(g, h, payload, s', walks[next := p])
  {
    hide Label;
  }

  lemma HopsFrame(s: Search, s': Search, w: Witness, next: Node)
    requires HopsOk(s.dis, w.relaxed, w.hops) && next !in s.dis
    requires s'.dis.Keys == s.dis.Keys + {next} && forall n :: n in s.dis ==> s'.dis[n] == s.dis[n]
    ensures HopsOk(s'.dis, w.relaxed, w.hops)
  {
  }

  // Labelling a node for the first time keeps the invariant.
  lemma DiscoverOk(g: Network, h: Node, payload: U32, s: Search, w: Witness, i: nat, todo: set<Node>, next: Node,
                   p: seq<Node>, m: Metric, s': Search)
    requires SearchOk(g, h, payload, s, w, i, todo) && i < |s.q| && h < |g.kind| && next < |g.kind|
    requires next !in s.dis && s.q[i] in s.dis && Label(g, h, payload, next, p, s.dis[s.q[i]] + 1, m)
    requires s' == Found(s, s.q[i], next, m, g.IsSwitch(next))
    ensures SearchOk(g, h, payload, s', w.(walks := w.walks[next := p]), i, todo)
    ensures s'.q[i] == s.q[i]
  {
    hide QueueOk, Near, LabelsOk, RelaxedUpTo, HopsOk, Label;
    DiscoverQueue(g, h, s, i, next, s', m);
    DiscoverLabels(g, h, payload, s.q[i], next, s, w.walks, p, m, s', g.IsSwitch(next));
    HopsFrame(s, s', w, next);
    RelaxedFrame(g, s.q, s'.q, i, todo, w.relaxed);
  }

  lemma RelaxedFrame(g: Network, q: seq<Node>, q': seq<Node>, i: nat, todo: set<Node>, relaxed: set<(Node, Node)>)
    requires i < |q| <= |q'| && q'[..i] == q[..i] && q'[i] == q[i] && RelaxedUpTo(g, q, i, todo, relaxed)
    ensures RelaxedUpTo(g, q', i, todo, relaxed)
  {
  }

  function Tight(s: Search, w: Witness, now: Node, next: Node): Witness
    requires now in s.dis && next in s.dis
  {
    Witness(w.walks, w.relaxed + {(now, next)},
            if s.dis[now] + 1 == s.dis[next] then w.hops[next := Row(w.hops, next) + [now]] else w.hops)
  }

  // Comparing the two labels of an up link, and recording it if it is tight, keeps the invariant.
  lemma RelaxOk(g: Network, h: Node, payload: U32, s: Search, w: Witness, i: nat, todo: set<Node>, next: Node)
    requires SearchOk(g, h, payload, s, w, i, todo + {next}) && i < |s.q| && next !in todo
    requires g.Up(s.q[i], next) && next in s.dis && s.q[i] in s.dis
    ensures SearchOk(g, h, payload, s, Tight(s, w, s.q[i], next), i, todo)
  {
    var now := s.q[i];
    assert now !in s.q[..i];
    RelaxHops(s.dis, w.relaxed, w.hops, now, next);
  }

  lemma RelaxHops(dis: map<Node, nat>, relaxed: set<(Node, Node)>, hops: map<Node, seq<Node>>, now: Node, next: Node)
    requires HopsOk(dis, relaxed, hops)
    requires now in dis && next in dis && dis[next] <= dis[now] + 1 && (now, next) !in relaxed
    ensures HopsOk(dis, relaxed + {(now, next)},
                   if dis[now] + 1 == dis[next] then hops[next := Row(hops, next) + [now]] else hops)
  {
    var hops' := if dis[now] + 1 == dis[next] then hops[next := Row(hops, next) + [now]] else hops;
    var relaxed' := relaxed + {(now, next)};
    assert now !in Row(hops, next);
    forall m, n ensures m in Row(hops', n) <==> (m, n) in relaxed' && dis[m] + 1 == dis[n] {
      if n == next && dis[now] + 1 == dis[next] {
        assert Row(hops', n) == Row(hops, n) + [now];
        assert m in Row(hops', n) <==> m in Row(hops, n) || m == now;
      } else {
        assert Row(hops', n) == Row(hops, n);
      }
    }
  }

  // A link that is down is passed over.
  lemma SkipOk(g: Network, h: Node, payload: U32, s: Search, w: Witness, i: nat, todo: set<Node>, next: Node)
    requires SearchOk(g, h, payload, s, w, i, todo + {next}) && i < |s.q| && !g.Up(s.q[i], next)
    ensures SearchOk(g, h, payload, s, w, i, todo)
  {
  }

  // Moving on to the next queued node.
  lemma AdvanceOk(g: Network, h: Node, payload: U32, s: Search, w: Witness, i: nat)
    requires SearchOk(g, h, payload, s, w, i, {}) && i < |s.q|
    ensures SearchOk(g, h, payload, s, w, i + 1, if i + 1 < |s.q| then KeysOf(g.nbr, s.q[i + 1]) else {})
  {
    RelaxedAdvance(g, s.q, i, w.relaxed);
    if i + 1 < |s.q| {
      NearAdvance(g, h, s.q, s.dis, i);
    }
  }

  lemma RelaxedAdvance(g: Network, q: seq<Node>, i: nat, relaxed: set<(Node, Node)>)
    requires i < |q| && RelaxedUpTo(g, q, i, {}, relaxed)
    ensures RelaxedUpTo(g, q, i + 1, if i + 1 < |q| then KeysOf(g.nbr, q[i + 1]) else {}, relaxed)
  {
    assert forall m :: m in q[..i + 1] <==> m in q[..i] || m == q[i];
  }

  lemma NearAdvance(g: Network, h: Node, q: seq<Node>, dis: map<Node, nat>, i: nat)
    requires i + 1 < |q| && QueueOk(g, h, q, dis) && q[i] in q && q[i + 1] in q && Near(dis[q[i]], dis)
    ensures Near(dis[q[i + 1]], dis)
  {
    assert dis[q[i]] <= dis[q[i + 1]];
  }

  // ---- what holds when the queue is used up ----

  // Labels that respect every up link bound every walk from below.
  lemma {:induction false} WalkBound(g: Network, h: Node, dis: map<Node, nat>, n: Node, p: seq<Node>)
    requires h in dis && dis[h] == 0
    requires forall m: Node, k: Node :: m in dis && g.Expands(h, m) && g.Up(m, k) ==> k in dis && dis[k] <= dis[m] + 1
    requires g.WalkTo(h, n, p)
    ensures n in dis && dis[n] <= |p| - 1
    decreases |p|
  {
    if |p| > 1 {
      var m := p[|p| - 2];
      var r := p[..|p| - 1];
      assert g.Step(p, |p| - 2);
      forall i: nat | i + 1 < |r| ensures g.Step(r, i) {
        assert g.Step(p, i);
      }
      WalkBound(g, h, dis, m, r);
    }
  }

  // The labels are the distances, each measured along a shortest walk.
  lemma DistancesDone(g: Network, h: Node, payload: U32, s: Search, w: Witness)
    requires SearchOk(g, h, payload, s, w, |s.q|, {})
    ensures forall n :: n in s.dis ==> n in w.walks && g.Shortest(h, n, w.walks[n])
    ensures forall n, d: nat :: n in s.dis && s.dis[n] == d <==> g.IsDist(h, n, d)
  {
    assert s.q[..|s.q|] == s.q;
    assert forall m: Node, k: Node :: m in s.dis && g.Expands(h, m) && g.Up(m, k) ==> (m, k) in w.relaxed;
    forall n, p | g.WalkTo(h, n, p) ensures n in s.dis && s.dis[n] <= |p| - 1 {
      WalkBound(g, h, s.dis, n, p);
    }
    forall n, d: nat ensures n in s.dis && s.dis[n] == d <==> g.IsDist(h, n, d) {
      if n in s.dis && s.dis[n] == d {
        assert g.Shortest(h, n, w.walks[n]);
      }
      if g.IsDist(h, n, d) {
        var p :| g.Shortest(h, n, p) && |p| == d + 1;
        assert g.Shortest(h, n, w.walks[n]);
      }
    }
  }

  // The hop lists are the equal-cost next hops.
  lemma HopsDone(g: Network, h: Node, payload: U32, s: Search, w: Witness, n: Node)
    requires SearchOk(g, h, payload, s, w, |s.q|, {})
    ensures g.CorrectHops(h, n, Row(w.hops, n))
  {
    DistancesDone(g, h, payload, s, w);
    assert s.q[..|s.q|] == s.q;
    forall m ensures m in Row(w.hops, n) <==> g.IsHop(h, n, m) {
      if g.IsHop(h, n, m) {
        var d: nat :| g.IsDist(h, m, d) && g.IsDist(h, n, d + 1);
        assert (m, n) in w.relaxed;
      }
      if m in Row(w.hops, n) {
        assert (m, n) in w.relaxed && g.IsDist(h, m, s.dis[m]) && g.IsDist(h, n, s.dis[m] + 1);
      }
    }
  }
}

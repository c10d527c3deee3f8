/** StaticInformation of utils/print-introspected-doxygen.cc: the recursive gathering of
    configuration paths over a type graph that may have cycles. */
module Gather {
  import opened Sequences

  // A type is its position in the TypeId registry.
  type TypeId = nat

  // Recorded aggregations, as pairs of types.
  type Aggregates = seq<(TypeId, TypeId)>

  // The two checkers that lead on to another type; every other attribute is Plain.
  datatype Attribute =
    | PointerTo(name: string, pointee: TypeId)
    | ContainerOf(name: string, item: TypeId)
    | Plain(name: string)

  datatype TypeInfo = TypeInfo(name: string, attributes: seq<Attribute>)

  // The registered types, the id of Object, and the pairs (child, ancestor) of IsChildOf.
  datatype Registry = Registry(types: seq<TypeInfo>, objectId: TypeId, isChild: set<(TypeId, TypeId)>) {
    ghost predicate Valid(aggregates: Aggregates) {
      && (forall t, i :: 0 <= t < |types| && 0 <= i < |types[t].attributes| ==> AttributeOk(types[t].attributes[i]))
      && (forall k :: 0 <= k < |aggregates| ==> aggregates[k].0 < |types| && aggregates[k].1 < |types|)
    }

    predicate AttributeOk(a: Attribute) {
      match a
      case PointerTo(_, t) => t < |types|
      case ContainerOf(_, t) => t < |types|
      case Plain(_) => true
    }
  }

  // ---- the type graph ----

  datatype Edge = Edge(tag: string, target: TypeId)

  // A pointer to Object itself is not followed.
  function AttributeEdges(reg: Registry, attributes: seq<Attribute>): seq<Edge> {
    if attributes == [] then []
    else
      var k := |attributes| - 1;
      AttributeEdges(reg, attributes[..k]) +
      match attributes[k]
      case PointerTo(name, pointee) => if pointee == reg.objectId then [] else [Edge(name, pointee)]
      case ContainerOf(name, item) => [Edge(name + "/[i]", item)]
      case Plain(_) => []
  }

  function ChildEdges(reg: Registry, tid: TypeId, n: nat): seq<Edge>
    requires n <= |reg.types|
  {
    if n == 0 then []
    else
      ChildEdges(reg, tid, n - 1) +
      if (n - 1, tid) in reg.isChild then [Edge("$" + reg.types[n - 1].name, n - 1)] else []
  }

  // The other end of an aggregation; of a self-aggregation, the type itself.
  function Other(pair: (TypeId, TypeId), tid: TypeId): TypeId {
    if pair.1 == tid then pair.0 else pair.1
  }

  function AggregateEdges(reg: Registry, tid: TypeId, aggregates: Aggregates): seq<Edge>
    requires reg.Valid(aggregates)
  {
    if aggregates == [] then []
    else
      var k := |aggregates| - 1;
      AggregateEdges(reg, tid, aggregates[..k]) +
      if aggregates[k].0 == tid || aggregates[k].1 == tid then
        [Edge("$" + reg.types[Other(aggregates[k], tid)].name, Other(aggregates[k], tid))]
      else []
  }

  // Everything one step away from tid, in the order DoGather visits it; parallel edges count separately.
  function Edges(reg: Registry, aggregates: Aggregates, tid: TypeId): (es: seq<Edge>)
    requires reg.Valid(aggregates) && tid < |reg.types|
  {
    AttributeEdges(reg, reg.types[tid].attributes) + ChildEdges(reg, tid, |reg.types|) +
    AggregateEdges(reg, tid, aggregates)
  }

  // ---- the edges, from the records they come from ----

  // A pointer to anything but Object, or a container.
  predicate Leads(reg: Registry, a: Attribute) {
    a.ContainerOf? || (a.PointerTo? && a.pointee != reg.objectId)
  }

  ghost predicate AttributeStep(a: Attribute, e: Edge) {
    match a
    case PointerTo(name, pointee) => e.tag == name && e.target == pointee
    case ContainerOf(name, item) => e.tag == name + "/[i]" && e.target == item
    case Plain(_) => false
  }

  ghost function Leading(reg: Registry, attributes: seq<Attribute>): set<nat> {
    set i: nat | i < |attributes| && Leads(reg, attributes[i])
  }

  // es[k] is the step through attribute f[k].
  ghost predicate AttributeSteps(attributes: seq<Attribute>, f: seq<nat>, es: seq<Edge>) {
    |es| == |f| && forall k: nat :: k < |f| ==> f[k] < |attributes| && AttributeStep(attributes[f[k]], es[k])
  }

  lemma LeadingSnoc(reg: Registry, attributes: seq<Attribute>, a: Attribute)
    ensures Leading(reg, attributes + [a]) == Leading(reg, attributes) + if Leads(reg, a) then {|attributes|} else {}
  {
  }

  lemma AttributeStepsSnoc(attributes: seq<Attribute>, a: Attribute, f: seq<nat>, es: seq<Edge>, e: Edge)
    requires AttributeSteps(attributes, f, es)
    ensures AttributeSteps(attributes + [a], f, es)
    ensures AttributeStep(a, e) ==> AttributeSteps(attributes + [a], f + [|attributes|], es + [e])
  {
    hide AttributeStep;
  }

  // One edge for each attribute that leads on, in the order of the attributes.
  lemma {:induction false} AttributesListed(reg: Registry, attributes: seq<Attribute>) returns (f: seq<nat>)
    ensures Chosen(f, Leading(reg, attributes)) && AttributeSteps(attributes, f, AttributeEdges(reg, attributes))
  {
    f := [];
    if attributes != [] {
      hide Chosen, Leading, AttributeSteps;
      var n := |attributes| - 1;
      var p, a := attributes[..n], attributes[n];
      f := AttributesListed(reg, p);
      var es, all := AttributeEdges(reg, p), AttributeEdges(reg, attributes);
      assert attributes == p + [a];
      LeadingSnoc(reg, p, a);
      LeadingBelow(reg, p);
      if Leads(reg, a) {
        ChosenSnoc(f, Leading(reg, p), n);
        assert all == es + [all[|es|]];
        AttributeStepsSnoc(p, a, f, es, all[|es|]);
        f := f + [n];
      } else {
        assert all == es;
        AttributeStepsSnoc(p, a, f, es, Edge("", 0));
        assert Leading(reg, p) + {} == Leading(reg, p);
      }
    }
  }

  lemma LeadingBelow(reg: Registry, attributes: seq<Attribute>)
    ensures forall i :: i in Leading(reg, attributes) ==> i < |attributes|
  {
  }

  ghost function Children(reg: Registry, tid: TypeId, n: nat): (r: set<nat>)
    ensures forall j :: j in r ==> j < n
  {
    set j: nat | j < n && (j, tid) in reg.isChild
  }

  // es[k] is the step to child f[k].
  ghost predicate ChildSteps(reg: Registry, f: seq<nat>, es: seq<Edge>) {
    |es| == |f| && forall k: nat :: k < |f| ==> f[k] < |reg.types| && es[k] == Edge("$" + reg.types[f[k]].name, f[k])
  }

  // One for each child, in the order of registration.
  lemma {:induction false} ChildrenListed(reg: Registry, tid: TypeId, n: nat) returns (f: seq<nat>)
    requires n <= |reg.types|
    ensures Chosen(f, Children(reg, tid, n)) && ChildSteps(reg, f, ChildEdges(reg, tid, n))
  {
    f := [];
    if n > 0 {
      hide Chosen;
      f := ChildrenListed(reg, tid, n - 1);
      var w := Children(reg, tid, n - 1);
      assert Children(reg, tid, n) == if (n - 1, tid) in reg.isChild then w + {n - 1} else w;
      if (n - 1, tid) in reg.isChild {
        ChosenSnoc(f, w, n - 1);
        f := f + [n - 1];
      }
    }
  }

  ghost function Joining(tid: TypeId, aggs: Aggregates): (r: set<nat>)
    ensures forall i :: i in r ==> i < |aggs|
  {
    set i: nat | i < |aggs| && (aggs[i].0 == tid || aggs[i].1 == tid)
  }

  // es[k] is the step to the other end of record f[k].
  ghost predicate AggregateSteps(reg: Registry, tid: TypeId, aggs: Aggregates, f: seq<nat>, es: seq<Edge>) {
    |es| == |f| && forall k: nat :: k < |f| ==> f[k] < |aggs| && AggregateStep(reg, tid, aggs[f[k]], es[k])
  }

  ghost predicate AggregateStep(reg: Registry, tid: TypeId, pair: (TypeId, TypeId), e: Edge) {
    && e.target < |reg.types| && e.tag == "$" + reg.types[e.target].name
    && (pair == (tid, e.target) || pair == (e.target, tid))
  }

  lemma JoiningSnoc(tid: TypeId, aggs: Aggregates, pair: (TypeId, TypeId))
    ensures Joining(tid, aggs + [pair]) ==
            Joining(tid, aggs) + if pair.0 == tid || pair.1 == tid then {|aggs|} else {}
  {
  }

  lemma AggregateStepsSnoc(reg: Registry, tid: TypeId, aggs: Aggregates, pair: (TypeId, TypeId), f: seq<nat>,
                           es: seq<Edge>, e: Edge)
    requires AggregateSteps(reg, tid, aggs, f, es)
    ensures AggregateSteps(reg, tid, aggs + [pair], f, es)
    ensures AggregateStep(reg, tid, pair, e) ==>
              AggregateSteps(reg, tid, aggs + [pair], f + [|aggs|], es + [e])
  {
    hide AggregateStep;
  }

  // One for each recorded aggregation that tid takes part in, in the order of the records.
  lemma {:induction false} AggregatesListed(reg: Registry, tid: TypeId, aggs: Aggregates) returns (f: seq<nat>)
    requires reg.Valid(aggs)
    ensures Chosen(f, Joining(tid, aggs)) && AggregateSteps(reg, tid, aggs, f, AggregateEdges(reg, tid, aggs))
  {
    f := [];
    if aggs != [] {
      hide Chosen, Joining, AggregateSteps;
      var n := |aggs| - 1;
      var p, pair := aggs[..n], aggs[n];
      f := AggregatesListed(reg, tid, p);
      var es, e := AggregateEdges(reg, tid, p), Edge("$" + reg.types[Other(pair, tid)].name, Other(pair, tid));
      assert aggs == p + [pair];
      JoiningSnoc(tid, p, pair);
      AggregateStepsSnoc(reg, tid, p, pair, f, es, e);
      if pair.0 == tid || pair.1 == tid {
        ChosenSnoc(f, Joining(tid, p), n);
        f := f + [n];
      } else {
        assert es + [] == es && Joining(tid, p) + {} == Joining(tid, p);
      }
    }
  }

  // From a type lead first its attributes, then its children, then its aggregations.
  lemma EdgesListed(reg: Registry, aggs: Aggregates, tid: TypeId) returns (a: seq<Edge>, c: seq<Edge>, g: seq<Edge>)
    requires reg.Valid(aggs) && tid < |reg.types|
    ensures Edges(reg, aggs, tid) == a + c + g
    ensures exists f :: Chosen(f, Leading(reg, reg.types[tid].attributes)) &&
                        AttributeSteps(reg.types[tid].attributes, f, a)
    ensures exists f :: Chosen(f, Children(reg, tid, |reg.types|)) && ChildSteps(reg, f, c)
    ensures exists f :: Chosen(f, Joining(tid, aggs)) && AggregateSteps(reg, tid, aggs, f, g)
  {
    hide Chosen, Leading, Children, Joining, AttributeSteps, ChildSteps, AggregateSteps;
    a := AttributeEdges(reg, reg.types[tid].attributes);
    c, g := ChildEdges(reg, tid, |reg.types|), AggregateEdges(reg, tid, aggs);
    var f := AttributesListed(reg, reg.types[tid].attributes);
    var f' := ChildrenListed(reg, tid, |reg.types|);
    var f'' := AggregatesListed(reg, tid, aggs);
  }

  lemma EdgesInRange(reg: Registry, aggregates: Aggregates, tid: TypeId)
    requires reg.Valid(aggregates) && tid < |reg.types|
    ensures InRange(reg, Edges(reg, aggregates, tid))
  {
    AttributeEdgesInRange(reg, reg.types[tid].attributes);
    ChildEdgesInRange(reg, tid, |reg.types|);
    AggregateEdgesInRange(reg, tid, aggregates);
  }

  ghost predicate InRange(reg: Registry, es: seq<Edge>) {
    forall i :: 0 <= i < |es| ==> es[i].target < |reg.types|
  }

  lemma {:induction false} AttributeEdgesInRange(reg: Registry, attributes: seq<Attribute>)
    requires forall i :: 0 <= i < |attributes| ==> reg.AttributeOk(attributes[i])
    ensures InRange(reg, AttributeEdges(reg, attributes))
  {
    if attributes != [] {
      AttributeEdgesInRange(reg, attributes[..|attributes| - 1]);
      assert reg.AttributeOk(attributes[|attributes| - 1]);
    }
  }

  lemma {:induction false} ChildEdgesInRange(reg: Registry, tid: TypeId, n: nat)
    requires n <= |reg.types|
    ensures InRange(reg, ChildEdges(reg, tid, n))
  {
    if n > 0 {
      ChildEdgesInRange(reg, tid, n - 1);
    }
  }

  lemma {:induction false} AggregateEdgesInRange(reg: Registry, tid: TypeId, aggregates: Aggregates)
    requires reg.Valid(aggregates)
    ensures InRange(reg, AggregateEdges(reg, tid, aggregates))
  {
    if aggregates != [] {
      AggregateEdgesInRange(reg, tid, aggregates[..|aggregates| - 1]);
    }
  }

  // ---- what DoGather appends, following its recursion ----

  type Entry = (TypeId, string)

  // "/" before each label.
  function Render(path: seq<string>): string {
    if path == [] then "" else Render(path[..|path| - 1]) + "/" + path[|path| - 1]
  }

  // Where label k begins in the string for path: behind a slash and the label for each one before.
  ghost function Offset(path: seq<string>, k: nat): nat
    requires k <= |path|
  {
    if k == 0 then 0 else Offset(path, k - 1) + 1 + |path[k - 1]|
  }

  // r is the labels of path, one after the other, each behind a slash.
  ghost predicate LaidOut(path: seq<string>, r: string) {
    |r| == Offset(path, |path|) && forall k: nat :: k < |path| ==> LabelAt(path, r, k)
  }

  ghost predicate LabelAt(path: seq<string>, r: string, k: nat)
    requires k < |path|
  {
    var i, j := Offset(path, k), Offset(path, k + 1);
    i < j <= |r| && r[i] == '/' && r[i + 1..j] == path[k]
  }

  lemma {:induction false} OffsetPrefix(path: seq<string>, n: nat, k: nat)
    requires k <= n <= |path|
    ensures Offset(path[..n], k) == Offset(path, k)
  {
    if k > 0 {
      OffsetPrefix(path, n, k - 1);
    }
  }

  lemma {:induction false} RenderLaidOut(path: seq<string>)
    ensures LaidOut(path, Render(path))
  {
    if path != [] {
      var n := |path| - 1;
      var p, x := path[..n], path[n];
      RenderLaidOut(p);
      OffsetPrefix(path, n, n);
      var q, r := Render(p), Render(path);
      assert r == q + "/" + x && |r| == Offset(path, n + 1);
      forall k: nat | k < |path| ensures LabelAt(path, r, k) {
        if k < n {
          LabelKept(path, n, q, r, k);
        } else {
          assert r[|q| + 1..] == x;
        }
      }
    }
  }

  lemma LabelKept(path: seq<string>, n: nat, q: string, r: string, k: nat)
    requires k < n <= |path| && LabelAt(path[..n], q, k) && |q| <= |r| && r[..|q|] == q
    ensures LabelAt(path, r, k)
  {
    OffsetPrefix(path, n, k);
    OffsetPrefix(path, n, k + 1);
    var i, j := Offset(path, k), Offset(path, k + 1);
    assert r[..|q|][i] == r[i] && r[..|q|][i + 1..j] == r[i + 1..j];
  }

  // The ancestors are distinct registered types, so the recursion is at most as deep as the registry.
  ghost predicate Ancestors(reg: Registry, seen: seq<TypeId>) {
    NoDup(seen) && forall t :: t in seen ==> t < |reg.types|
  }

  lemma AncestorsGrow(reg: Registry, seen: seq<TypeId>, tid: TypeId)
    requires Ancestors(reg, seen) && tid < |reg.types| && tid !in seen
    ensures Ancestors(reg, seen + [tid]) && |seen| < |reg.types|
  {
    NoDupBound(seen + [tid], |reg.types|);
  }

  ghost function Gathered(reg: Registry, aggs: Aggregates, tid: TypeId, path: seq<string>,
                          seen: seq<TypeId>): seq<Entry>
    requires reg.Valid(aggs) && tid < |reg.types| && Ancestors(reg, seen)
    decreases |reg.types| - |seen|, 0, 1
  {
    if tid in seen then []
    else
      AncestorsGrow(reg, seen, tid);
      EdgesInRange(reg, aggs, tid);
      [(tid, Render(path))] + GatheredFrom(reg, aggs, Edges(reg, aggs, tid), path, seen + [tid])
  }

  ghost function GatheredFrom(reg: Registry, aggs: Aggregates, es: seq<Edge>, path: seq<string>,
                              seen: seq<TypeId>): seq<Entry>
    requires reg.Valid(aggs) && InRange(reg, es) && Ancestors(reg, seen)
    decreases |reg.types| - |seen|, |es|, 2
  {
    if es == [] then []
    else
      var k := |es| - 1;
      GatheredFrom(reg, aggs, es[..k], path, seen) + Gathered(reg, aggs, es[k].target, path + [es[k].tag], seen)
  }

  // ---- sorting and pruning a copy ----

  predicate StringLess(s: string, t: string) {
    t != [] && (s == [] || s[0] < t[0] || (s[0] == t[0] && StringLess(s[1..], t[1..])))
  }

  // operator< on pairs.
  predicate Less(a: Entry, b: Entry) { a.0 < b.0 || (a.0 == b.0 && StringLess(a.1, b.1)) }

  lemma {:induction false} StringLessOrder(s: string, t: string, u: string)
    ensures StringLess(s, t) && StringLess(t, u) ==> StringLess(s, u)
    ensures s == t || StringLess(s, t) || StringLess(t, s)
    ensures !StringLess(s, s)
    decreases |s|
  {
    if s != [] {
      StringLessOrder(s[1..], if t == [] then [] else t[1..], if u == [] then [] else u[1..]);
      assert s == [s[0]] + s[1..] && (t != [] ==> t == [t[0]] + t[1..]);
    }
  }

  // s comes first: at the first place where the two differ it has the smaller character, or ends.
  ghost predicate Precedes(s: string, t: string, k: nat) {
    k <= |s| && k <= |t| && s[..k] == t[..k] && k < |t| && (k == |s| || s[k] < t[k])
  }

  lemma SameStart(s: string, t: string, k: nat)
    requires k <= |s| && k <= |t| && s[..k] == t[..k]
    ensures k > 0 ==> s[0] == t[0]
  {
    assert k > 0 ==> s[..k][0] == s[0] && t[..k][0] == t[0];
  }

  lemma {:induction false} StringLessMeaning(s: string, t: string)
    ensures StringLess(s, t) <==> exists k: nat :: Precedes(s, t, k)
    decreases |s|
  {
    if t == [] || s == [] || s[0] != t[0] {
      assert t != [] && (s == [] || s[0] < t[0]) ==> Precedes(s, t, 0);
      forall k: nat | Precedes(s, t, k) ensures k == 0 {
        SameStart(s, t, k);
      }
    } else {
      StringLessMeaning(s[1..], t[1..]);
      if k: nat :| Precedes(s[1..], t[1..], k) {
        assert s[..k + 1] == [s[0]] + s[1..][..k] && t[..k + 1] == [t[0]] + t[1..][..k];
        assert Precedes(s, t, k + 1);
      }
      if k: nat :| Precedes(s, t, k) {
        assert k > 0 && s[1..][..k - 1] == s[..k][1..] && t[1..][..k - 1] == t[..k][1..];
        assert Precedes(s[1..], t[1..], k - 1);
      }
    }
  }

  lemma LessOrder(a: Entry, b: Entry, c: Entry)
    ensures Less(a, b) && Less(b, c) ==> Less(a, c)
    ensures a == b || Less(a, b) || Less(b, a)
    ensures !Less(a, a)
  {
    StringLessOrder(a.1, b.1, c.1);
  }

  ghost predicate Sorted(s: seq<Entry>) { forall i, j :: 0 <= i < j < |s| ==> s[i] == s[j] || Less(s[i], s[j]) }

  ghost predicate StrictlySorted(s: seq<Entry>) { forall i, j :: 0 <= i < j < |s| ==> Less(s[i], s[j]) }

  // x put where it belongs.
  function Insert(s: seq<Entry>, x: Entry): seq<Entry> {
    if s == [] || x == s[0] || Less(x, s[0]) then [x] + s else [s[0]] + Insert(s[1..], x)
  }

  lemma {:induction false} InsertMembers(s: seq<Entry>, x: Entry)
    ensures multiset(Insert(s, x)) == multiset(s) + multiset{x}
  {
    hide Less;
    if s != [] {
      assert s == [s[0]] + s[1..];
      InsertMembers(s[1..], x);
    }
  }

  // In front of a sorted sequence, an entry not greater than its members.
  lemma SortedCons(x: Entry, s: seq<Entry>)
    requires Sorted(s) && forall y :: y in multiset(s) ==> x == y || Less(x, y)
    ensures Sorted([x] + s)
  {
    hide Less;
    var r := [x] + s;
    forall i, j | 0 <= i < j < |r| ensures r[i] == r[j] || Less(r[i], r[j]) {
      assert r[j] == s[j - 1];
      if i == 0 {
        assert r[j] in multiset(s);
      } else {
        assert r[i] == s[i - 1];
      }
    }
  }

  lemma {:induction false} InsertSorts(s: seq<Entry>, x: Entry)
    requires Sorted(s)
    ensures Sorted(Insert(s, x))
  {
    hide Less;
    if s == [] {
      SortedCons(x, s);
    } else if x == s[0] || Less(x, s[0]) {
      forall y | y in multiset(s) ensures x == y || Less(x, y) {
        var i :| 0 <= i < |s| && s[i] == y;
        LessOrder(x, s[0], y);
      }
      SortedCons(x, s);
    } else {
      LessOrder(x, s[0], x);
      InsertSorts(s[1..], x);
      InsertMembers(s[1..], x);
      forall y | y in multiset(Insert(s[1..], x)) ensures s[0] == y || Less(s[0], y) {
        if y != x {
          var i :| 0 <= i < |s[1..]| && s[1..][i] == y;
          assert s[i + 1] == y;
        }
      }
      SortedCons(s[0], Insert(s[1..], x));
    }
  }

  lemma StrictNoDup(s: seq<Entry>)
    requires StrictlySorted(s)
    ensures NoDup(s)
  {
    forall i, j | 0 <= i < j < |s| ensures s[i] != s[j] {
      LessOrder(s[i], s[j], s[j]);
    }
  }

  // std::sort, then std::unique and erase. Takes the container by value.
  method Uniquefy(t: seq<Entry>) returns (u: seq<Entry>)
    ensures NoDup(u) && forall x :: x in u <==> x in t
    ensures forall i, j :: 0 <= i < j < |u| ==>
              u[i].0 < u[j].0 || (u[i].0 == u[j].0 && exists k: nat :: Precedes(u[i].1, u[j].1, k))
  {
    var s := SortEntries(t);
    u := [];
    for i := 0 to |s|
      invariant StrictlySorted(u) && (i > 0 ==> u != [] && u[|u| - 1] == s[i - 1]) && (i == 0 ==> u == [])
      invariant forall x :: x in u <==> x in s[..i]
    {
      assert s[..i + 1] == s[..i] + [s[i]];
      if i == 0 || u[|u| - 1] != s[i] {
        forall k | 0 <= k < |u| ensures Less(u[k], s[i]) {
          LessOrder(u[k], u[|u| - 1], s[i]);
        }
        u := u + [s[i]];
      }
    }
    assert s[..|s|] == s;
    assert forall x :: x in s <==> x in multiset(s);
    assert forall x :: x in t <==> x in multiset(t);
    StrictNoDup(u);
    forall i, j | 0 <= i < j < |u|
      ensures u[i].0 < u[j].0 || (u[i].0 == u[j].0 && exists k: nat :: Precedes(u[i].1, u[j].1, k))
    {
      StringLessMeaning(u[i].1, u[j].1);
    }
  }

  method SortEntries(t: seq<Entry>) returns (s: seq<Entry>)
    ensures Sorted(s) && multiset(s) == multiset(t)
  {
    s := [];
    for i := 0 to |t|
      invariant Sorted(s) && multiset(s) == multiset(t[..i])
    {
      assert t[..i + 1] == t[..i] + [t[i]];
      InsertSorts(s, t[i]);
      InsertMembers(s, t[i]);
      s := Insert(s, t[i]);
    }
    assert t[..|t|] == t;
  }

  lemma GatheredSnoc(reg: Registry, aggs: Aggregates, es: seq<Edge>, e: Edge, path: seq<string>, seen: seq<TypeId>)
    requires reg.Valid(aggs) && InRange(reg, es) && e.target < |reg.types| && Ancestors(reg, seen)
    ensures InRange(reg, es + [e])
    ensures GatheredFrom(reg, aggs, es + [e], path, seen) ==
            GatheredFrom(reg, aggs, es, path, seen) + Gathered(reg, aggs, e.target, path + [e.tag], seen)
  {
    hide Gathered, Ancestors;
    var fs := es + [e];
    assert fs[..|fs| - 1] == es;
  }

  class StaticInformation {
    var output: seq<Entry>
    var currentPath: seq<string>
    var alreadyProcessed: seq<TypeId>
    var aggregates: Aggregates

    constructor ()
      ensures output == [] && currentPath == [] && alreadyProcessed == [] && aggregates == []
    {
      output, currentPath, alreadyProcessed, aggregates := [], [], [], [];
    }

    // The loop over the path items.
    method GetCurrentPath() returns (r: string)
      ensures r == Render(currentPath) && LaidOut(currentPath, r)
    {
      r := "";
      for i := 0 to |currentPath|
        invariant r == Render(currentPath[..i])
      {
        r := r + "/" + currentPath[i];
        assert currentPath[..i + 1][..i] == currentPath[..i];
      }
      assert currentPath[..|currentPath|] == currentPath;
      RenderLaidOut(currentPath);
    }

    method RecordOutput(tid: TypeId)
      modifies this`output
      ensures output == old(output) + [(tid, Render(currentPath))] && LaidOut(currentPath, Render(currentPath))
    {
      var path := GetCurrentPath();
      output := output + [(tid, path)];
    }

    method HasAlreadyBeenProcessed(tid: TypeId) returns (r: bool)
      ensures r <==> tid in alreadyProcessed
    {
      for i := 0 to |alreadyProcessed|
        invariant tid !in alreadyProcessed[..i]
      {
        if alreadyProcessed[i] == tid {
          return true;
        }
      }
      return false;
    }

    // On any finite type graph, cyclic or not, the recursion ends, leaves the path and the
    // ancestor stack as it found them, and appends what Gathered says.
    method DoGather(reg: Registry, tid: TypeId)
      requires reg.Valid(aggregates) && tid < |reg.types| && Ancestors(reg, alreadyProcessed)
      modifies this`output, this`currentPath, this`alreadyProcessed
      ensures currentPath == old(currentPath) && alreadyProcessed == old(alreadyProcessed)
      ensures output == old(output) + Gathered(reg, aggregates, tid, currentPath, alreadyProcessed)
      decreases |reg.types| - |alreadyProcessed|, 2
    {
      hide AttributeEdges, ChildEdges, AggregateEdges, Render, Ancestors;
      var seen := HasAlreadyBeenProcessed(tid);
      if seen {
        return;
      }
      RecordOutput(tid);
      AncestorsGrow(reg, alreadyProcessed, tid);
      ghost var start := output;
      ghost var es := GatherAttributes(reg, tid, start);
      es := GatherChildren(reg, tid, es, start);
      es := GatherAggregates(reg, tid, es, start);
    }

    // The loop over the attributes that point to an object or hold a container of objects.
    method GatherAttributes(reg: Registry, tid: TypeId, ghost start: seq<Entry>) returns (ghost es: seq<Edge>)
      requires reg.Valid(aggregates) && tid < |reg.types| && tid !in alreadyProcessed && output == start
      requires Ancestors(reg, alreadyProcessed) && Ancestors(reg, alreadyProcessed + [tid]) &&
               |alreadyProcessed| < |reg.types|
      modifies this`output, this`currentPath, this`alreadyProcessed
      ensures currentPath == old(currentPath) && alreadyProcessed == old(alreadyProcessed)
      ensures es == AttributeEdges(reg, reg.types[tid].attributes) && InRange(reg, es)
      ensures output == start + GatheredFrom(reg, aggregates, es, currentPath, alreadyProcessed + [tid])
      decreases |reg.types| - |alreadyProcessed|, 1
    {
      hide AttributeEdges, Ancestors;
      ghost var below := alreadyProcessed + [tid];
      var attributes := reg.types[tid].attributes;
      es := [];
      NoEdges(reg, tid);
      for i := 0 to |attributes|
        invariant currentPath == old(currentPath) && alreadyProcessed == old(alreadyProcessed)
        invariant es == AttributeEdges(reg, attributes[..i]) && InRange(reg, es)
        invariant output == start + GatheredFrom(reg, aggregates, es, currentPath, below)
      {
        AttributeSnoc(reg, attributes, i);
        assert reg.AttributeOk(attributes[i]);
        match attributes[i]
        case PointerTo(name, pointee) =>
          if pointee != reg.objectId {
            Descend(reg, tid, name, pointee, es, start);
            es := es + [Edge(name, pointee)];
          }
        case ContainerOf(name, item) =>
          Descend(reg, tid, name + "/[i]", item, es, start);
          es := es + [Edge(name + "/[i]", item)];
        case Plain(_) =>
      }
      assert attributes[..|attributes|] == attributes;
    }

    // The loop over the registered types that derive from tid.
    method GatherChildren(reg: Registry, tid: TypeId, ghost base: seq<Edge>,
                          ghost start: seq<Entry>) returns (ghost es: seq<Edge>)
      requires reg.Valid(aggregates) && tid < |reg.types| && tid !in alreadyProcessed && InRange(reg, base)
      requires Ancestors(reg, alreadyProcessed) && Ancestors(reg, alreadyProcessed + [tid]) &&
               |alreadyProcessed| < |reg.types|
      requires output == start + GatheredFrom(reg, aggregates, base, currentPath, alreadyProcessed + [tid])
      modifies this`output, this`currentPath, this`alreadyProcessed
      ensures currentPath == old(currentPath) && alreadyProcessed == old(alreadyProcessed)
      ensures es == base + ChildEdges(reg, tid, |reg.types|) && InRange(reg, es)
      ensures output == start + GatheredFrom(reg, aggregates, es, currentPath, alreadyProcessed + [tid])
      decreases |reg.types| - |alreadyProcessed|, 1
    {
      hide ChildEdges, Ancestors, GatheredFrom;
      ghost var below := alreadyProcessed + [tid];
      es := base;
      NoEdges(reg, tid);
      for j := 0 to |reg.types|
        invariant currentPath == old(currentPath) && alreadyProcessed == old(alreadyProcessed)
        invariant es == base + ChildEdges(reg, tid, j) && InRange(reg, es)
        invariant output == start + GatheredFrom(reg, aggregates, es, currentPath, below)
      {
        ChildSnoc(reg, tid, j);
        if (j, tid) in reg.isChild {
          var childName := "$" + reg.types[j].name;
          Descend(reg, tid, childName, j, es, start);
          es := es + [Edge(childName, j)];
        }
      }
    }

    // The loop over the aggregations that tid takes part in.
    method GatherAggregates(reg: Registry, tid: TypeId, ghost base: seq<Edge>,
                            ghost start: seq<Entry>) returns (ghost es: seq<Edge>)
      requires reg.Valid(aggregates) && tid < |reg.types| && tid !in alreadyProcessed && InRange(reg, base)
      requires Ancestors(reg, alreadyProcessed) && Ancestors(reg, alreadyProcessed + [tid]) &&
               |alreadyProcessed| < |reg.types|
      requires output == start + GatheredFrom(reg, aggregates, base, currentPath, alreadyProcessed + [tid])
      modifies this`output, this`currentPath, this`alreadyProcessed
      ensures currentPath == old(currentPath) && alreadyProcessed == old(alreadyProcessed)
      ensures es == base + AggregateEdges(reg, tid, aggregates) && InRange(reg, es)
      ensures output == start + GatheredFrom(reg, aggregates, es, currentPath, alreadyProcessed + [tid])
      decreases |reg.types| - |alreadyProcessed|, 1
    {
      hide AggregateEdges, Ancestors, GatheredFrom;
      ghost var below := alreadyProcessed + [tid];
      es := base;
      NoEdges(reg, tid);
      assert aggregates[..0] == [];
      for k := 0 to |aggregates|
        invariant currentPath == old(currentPath) && alreadyProcessed == old(alreadyProcessed)
        invariant es == base + AggregateEdges(reg, tid, aggregates[..k]) && InRange(reg, es)
        invariant output == start + GatheredFrom(reg, aggregates, es, currentPath, below)
      {
        AggregateSnoc(reg, tid, aggregates, k);
        var item := aggregates[k];
        if item.0 == tid || item.1 == tid {
          var other := 0;
          if item.0 == tid {
            other := item.1;
          }
          if item.1 == tid {
            other := item.0;
          }
          var name := "$" + reg.types[other].name;
          Descend(reg, tid, name, other, es, start);
          es := es + [Edge(name, other)];
        }
      }
      assert aggregates[..|aggregates|] == aggregates;
    }

    // The step the three loops share: push label and tid, gather the target, pop both.
    method Descend(reg: Registry, tid: TypeId, name: string, target: TypeId, ghost es: seq<Edge>,
                   ghost start: seq<Entry>)
      requires reg.Valid(aggregates) && tid < |reg.types| && target < |reg.types|
      requires Ancestors(reg, alreadyProcessed) && tid !in alreadyProcessed
      requires Ancestors(reg, alreadyProcessed + [tid]) && |alreadyProcessed| < |reg.types| && InRange(reg, es)
      requires output == start + GatheredFrom(reg, aggregates, es, currentPath, alreadyProcessed + [tid])
      modifies this`output, this`currentPath, this`alreadyProcessed
      ensures currentPath == old(currentPath) && alreadyProcessed == old(alreadyProcessed)
      ensures InRange(reg, es + [Edge(name, target)])
      ensures output == start +
              GatheredFrom(reg, aggregates, es + [Edge(name, target)], currentPath, alreadyProcessed + [tid])
      decreases |reg.types| - |alreadyProcessed|, 0
    {
      hide Gathered, GatheredFrom, Render, Edges, AttributeEdges, ChildEdges, AggregateEdges, Ancestors;
      currentPath := currentPath + [name];
      alreadyProcessed := alreadyProcessed + [tid];
      DoGather(reg, target);
      alreadyProcessed := alreadyProcessed[..|alreadyProcessed| - 1];
      currentPath := currentPath[..|currentPath| - 1];
      GatheredSnoc(reg, aggregates, es, Edge(name, target), currentPath, alreadyProcessed + [tid]);
    }

    // Uniquefy is handed a copy of output and what it makes of it is dropped, so output stays as
    // DoGather left it.
    method Gather(reg: Registry, tid: TypeId)
      requires reg.Valid(aggregates) && tid < |reg.types| && Ancestors(reg, alreadyProcessed)
      modifies this`output, this`currentPath, this`alreadyProcessed
      ensures currentPath == old(currentPath) && alreadyProcessed == old(alreadyProcessed)
      ensures output == old(output) + Gathered(reg, aggregates, tid, currentPath, alreadyProcessed)
    {
      DoGather(reg, tid);
      var copy := Uniquefy(output);
    }

    method Get(tid: TypeId) returns (paths: seq<string>)
      ensures paths == PathsOf(output, tid)
      ensures exists f :: Chosen(f, EntriesFor(output, tid)) && StringsOf(output, f, paths)
    {
      paths := [];
      for i := 0 to |output|
        invariant paths == PathsOf(output[..i], tid)
      {
        assert output[..i + 1][..i] == output[..i];
        if output[i].0 == tid {
          paths := paths + [output[i].1];
        }
      }
      assert output[..|output|] == output;
      ghost var f := PathsListed(output, tid);
    }
  }

  ghost function EntriesFor(out: seq<Entry>, tid: TypeId): (r: set<nat>)
    ensures forall i :: i in r ==> i < |out|
  {
    set i: nat | i < |out| && out[i].0 == tid
  }

  // paths[k] is the string of entry f[k].
  ghost predicate StringsOf(out: seq<Entry>, f: seq<nat>, paths: seq<string>) {
    |paths| == |f| && forall k: nat :: k < |f| ==> f[k] < |out| && paths[k] == out[f[k]].1
  }

  // The strings of the entries for tid, in the order of the entries, each as often as it is there.
  lemma {:induction false} PathsListed(out: seq<Entry>, tid: TypeId) returns (f: seq<nat>)
    ensures Chosen(f, EntriesFor(out, tid)) && StringsOf(out, f, PathsOf(out, tid))
  {
    f := [];
    if out != [] {
      hide Chosen, EntriesFor, StringsOf;
      var n := |out| - 1;
      var p, e := out[..n], out[n];
      f := PathsListed(p, tid);
      assert out == p + [e];
      EntriesForSnoc(p, e, tid);
      StringsSnoc(p, e, f, PathsOf(p, tid));
      if e.0 == tid {
        ChosenSnoc(f, EntriesFor(p, tid), n);
        f := f + [n];
      } else {
        assert EntriesFor(p, tid) + {} == EntriesFor(p, tid) && PathsOf(p, tid) + [] == PathsOf(p, tid);
      }
    }
  }

  lemma EntriesForSnoc(out: seq<Entry>, e: Entry, tid: TypeId)
    ensures EntriesFor(out + [e], tid) == EntriesFor(out, tid) + if e.0 == tid then {|out|} else {}
  {
  }

  lemma StringsSnoc(out: seq<Entry>, e: Entry, f: seq<nat>, paths: seq<string>)
    requires StringsOf(out, f, paths)
    ensures StringsOf(out + [e], f, paths) && StringsOf(out + [e], f + [|out|], paths + [e.1])
  {
  }

  lemma NoEdges(reg: Registry, tid: TypeId)
    ensures AttributeEdges(reg, []) == [] && ChildEdges(reg, tid, 0) == []
    ensures reg.Valid([]) ==> AggregateEdges(reg, tid, []) == []
  {
  }

  lemma AttributeSnoc(reg: Registry, attributes: seq<Attribute>, i: nat)
    requires i < |attributes|
    ensures AttributeEdges(reg, attributes[..i + 1]) == AttributeEdges(reg, attributes[..i]) +
            match attributes[i]
            case PointerTo(name, pointee) => if pointee == reg.objectId then [] else [Edge(name, pointee)]
            case ContainerOf(name, item) => [Edge(name + "/[i]", item)]
            case Plain(_) => []
  {
    assert attributes[..i + 1][..i] == attributes[..i];
  }

  lemma ChildSnoc(reg: Registry, tid: TypeId, j: nat)
    requires j < |reg.types|
    ensures ChildEdges(reg, tid, j + 1) ==
            ChildEdges(reg, tid, j) + if (j, tid) in reg.isChild then [Edge("$" + reg.types[j].name, j)] else []
  {
  }

  lemma AggregateSnoc(reg: Registry, tid: TypeId, aggs: Aggregates, k: nat)
    requires reg.Valid(aggs) && k < |aggs|
    ensures AggregateEdges(reg, tid, aggs[..k + 1]) == AggregateEdges(reg, tid, aggs[..k]) +
            if aggs[k].0 == tid || aggs[k].1 == tid then
              [Edge("$" + reg.types[Other(aggs[k], tid)].name, Other(aggs[k], tid))]
            else []
  {
    assert aggs[..k + 1][..k] == aggs[..k];
  }

  function PathsOf(output: seq<Entry>, tid: TypeId): seq<string> {
    if output == [] then []
    else
      var k := |output| - 1;
      PathsOf(output[..k], tid) + if output[k].0 == tid then [output[k].1] else []
  }

  // ---- simple paths, independently of the recursion ----

  // c names, at each type in turn, which of its edges is taken.
  ghost predicate IsPath(reg: Registry, aggs: Aggregates, tid: TypeId, c: seq<nat>)
    requires reg.Valid(aggs)
    decreases |c|
  {
    tid < |reg.types| &&
    (c == [] || (c[0] < |Edges(reg, aggs, tid)| && IsPath(reg, aggs, Edges(reg, aggs, tid)[c[0]].target, c[1..])))
  }

  // The types visited, the labels passed, and the type reached.
  ghost function Visited(reg: Registry, aggs: Aggregates, tid: TypeId, c: seq<nat>): seq<TypeId>
    requires reg.Valid(aggs) && IsPath(reg, aggs, tid, c)
    decreases |c|
  {
    if c == [] then [tid] else [tid] + Visited(reg, aggs, Edges(reg, aggs, tid)[c[0]].target, c[1..])
  }

  ghost function Labels(reg: Registry, aggs: Aggregates, tid: TypeId, c: seq<nat>): seq<string>
    requires reg.Valid(aggs) && IsPath(reg, aggs, tid, c)
    decreases |c|
  {
    if c == [] then []
    else
      var e := Edges(reg, aggs, tid)[c[0]];
      [e.tag] + Labels(reg, aggs, e.target, c[1..])
  }

  ghost function End(reg: Registry, aggs: Aggregates, tid: TypeId, c: seq<nat>): TypeId
    requires reg.Valid(aggs) && IsPath(reg, aggs, tid, c)
    decreases |c|
  {
    if c == [] then tid else End(reg, aggs, Edges(reg, aggs, tid)[c[0]].target, c[1..])
  }

  // A path that visits no type twice, and none of seen.
  ghost predicate SimplePath(reg: Registry, aggs: Aggregates, tid: TypeId, c: seq<nat>, seen: seq<TypeId>)
    requires reg.Valid(aggs)
  {
    && IsPath(reg, aggs, tid, c) && NoDup(Visited(reg, aggs, tid, c))
    && forall t :: t in Visited(reg, aggs, tid, c) ==> t !in seen
  }

  ghost function EntryOf(reg: Registry, aggs: Aggregates, tid: TypeId, path: seq<string>, c: seq<nat>): Entry
    requires reg.Valid(aggs) && IsPath(reg, aggs, tid, c)
  {
    (End(reg, aggs, tid, c), Render(path + Labels(reg, aggs, tid, c)))
  }

  // ---- the order in which DoGather meets them ----

  ghost function Prefixed(k: nat, cs: seq<seq<nat>>): (r: seq<seq<nat>>)
    ensures |r| == |cs| && forall i :: 0 <= i < |cs| ==> r[i] == [k] + cs[i]
  {
    seq(|cs|, i requires 0 <= i < |cs| => [k] + cs[i])
  }

  ghost function Enumerate(reg: Registry, aggs: Aggregates, tid: TypeId, seen: seq<TypeId>): seq<seq<nat>>
    requires reg.Valid(aggs) && tid < |reg.types| && Ancestors(reg, seen)
    decreases |reg.types| - |seen|, 0, 1
  {
    if tid in seen then []
    else
      AncestorsGrow(reg, seen, tid);
      EdgesInRange(reg, aggs, tid);
      [[]] + EnumerateFrom(reg, aggs, Edges(reg, aggs, tid), seen + [tid])
  }

  ghost function EnumerateFrom(reg: Registry, aggs: Aggregates, es: seq<Edge>, seen: seq<TypeId>): seq<seq<nat>>
    requires reg.Valid(aggs) && InRange(reg, es) && Ancestors(reg, seen)
    decreases |reg.types| - |seen|, |es|, 2
  {
    if es == [] then []
    else
      var k := |es| - 1;
      EnumerateFrom(reg, aggs, es[..k], seen) + Prefixed(k, Enumerate(reg, aggs, es[k].target, seen))
  }

  // Each simple path is enumerated, and nothing else is.
  lemma {:induction false} EnumeratedIff(reg: Registry, aggs: Aggregates, tid: TypeId, seen: seq<TypeId>, c: seq<nat>)
    requires reg.Valid(aggs) && tid < |reg.types| && Ancestors(reg, seen)
    ensures c in Enumerate(reg, aggs, tid, seen) <==> SimplePath(reg, aggs, tid, c, seen)
    decreases |c|, 0
  {
    hide Edges;
    if tid !in seen {
      AncestorsGrow(reg, seen, tid);
      EdgesInRange(reg, aggs, tid);
      var es := Edges(reg, aggs, tid);
      EnumeratedFromIff(reg, aggs, es, seen + [tid], c);
      if c != [] && c[0] < |es| {
        EnumeratedIff(reg, aggs, es[c[0]].target, seen + [tid], c[1..]);
        SimpleStep(reg, aggs, tid, seen, c);
      }
    }
  }

  lemma SimpleStep(reg: Registry, aggs: Aggregates, tid: TypeId, seen: seq<TypeId>, c: seq<nat>)
    requires reg.Valid(aggs) && tid < |reg.types| && tid !in seen
    requires c != [] && c[0] < |Edges(reg, aggs, tid)|
    ensures SimplePath(reg, aggs, tid, c, seen) <==>
            SimplePath(reg, aggs, Edges(reg, aggs, tid)[c[0]].target, c[1..], seen + [tid])
  {
    hide Edges;
    var next := Edges(reg, aggs, tid)[c[0]].target;
    if IsPath(reg, aggs, next, c[1..]) {
      var v, r := Visited(reg, aggs, tid, c), Visited(reg, aggs, next, c[1..]);
      assert v == [tid] + r;
      assert NoDup(v) <==> NoDup(r) && tid !in r by { NoDupCons(tid, r); }
    }
  }

  lemma NoDupCons<T>(x: T, r: seq<T>)
    ensures NoDup([x] + r) <==> NoDup(r) && x !in r
  {
    var v := [x] + r;
    if NoDup(v) {
      forall i, j | 0 <= i < j < |r| ensures r[i] != r[j] {
        assert v[i + 1] != v[j + 1];
      }
      forall j | 0 <= j < |r| ensures r[j] != x {
        assert v[0] != v[j + 1];
      }
    }
  }

  lemma {:induction false} EnumeratedFromIff(reg: Registry, aggs: Aggregates, es: seq<Edge>, seen: seq<TypeId>,
                                        c: seq<nat>)
    requires reg.Valid(aggs) && InRange(reg, es) && Ancestors(reg, seen)
    ensures c in EnumerateFrom(reg, aggs, es, seen) <==>
            c != [] && c[0] < |es| && c[1..] in Enumerate(reg, aggs, es[c[0]].target, seen)
    decreases |es|
  {
    if es != [] {
      var k := |es| - 1;
      EnumeratedFromIff(reg, aggs, es[..k], seen, c);
      var cs := Enumerate(reg, aggs, es[k].target, seen);
      PrefixedIff(k, cs, c);
    }
  }

  lemma PrefixedIff(k: nat, cs: seq<seq<nat>>, c: seq<nat>)
    ensures c in Prefixed(k, cs) <==> c != [] && c[0] == k && c[1..] in cs
  {
    var r := Prefixed(k, cs);
    if c in r {
      var i :| 0 <= i < |r| && r[i] == c;
      assert c[1..] == cs[i];
    }
    if c != [] && c[0] == k && c[1..] in cs {
      var i :| 0 <= i < |cs| && cs[i] == c[1..];
      assert r[i] == c;
    }
  }

  // No path is enumerated twice.
  lemma {:induction false} EnumeratedOnce(reg: Registry, aggs: Aggregates, tid: TypeId, seen: seq<TypeId>)
    requires reg.Valid(aggs) && tid < |reg.types| && Ancestors(reg, seen)
    ensures NoDup(Enumerate(reg, aggs, tid, seen))
    decreases |reg.types| - |seen|, 0, 1
  {
    hide Edges;
    if tid !in seen {
      AncestorsGrow(reg, seen, tid);
      EdgesInRange(reg, aggs, tid);
      var es := Edges(reg, aggs, tid);
      EnumeratedFromOnce(reg, aggs, es, seen + [tid]);
      EnumeratedFromIff(reg, aggs, es, seen + [tid], []);
      NoDupCons([], EnumerateFrom(reg, aggs, es, seen + [tid]));
    }
  }

  lemma {:induction false} EnumeratedFromOnce(reg: Registry, aggs: Aggregates, es: seq<Edge>, seen: seq<TypeId>)
    requires reg.Valid(aggs) && InRange(reg, es) && Ancestors(reg, seen)
    ensures NoDup(EnumerateFrom(reg, aggs, es, seen))
    decreases |reg.types| - |seen|, |es|, 2
  {
    if es != [] {
      var k := |es| - 1;
      EnumeratedFromOnce(reg, aggs, es[..k], seen);
      EnumeratedOnce(reg, aggs, es[k].target, seen);
      var a, b := EnumerateFrom(reg, aggs, es[..k], seen), Prefixed(k, Enumerate(reg, aggs, es[k].target, seen));
      forall i | 0 <= i < |a| ensures a[i] != [] && a[i][0] < k {
        assert a[i] in a;
        EnumeratedFromIff(reg, aggs, es[..k], seen, a[i]);
      }
      forall i, j | 0 <= i < j < |b| ensures b[i] != b[j] {
        assert b[i][1..] == Enumerate(reg, aggs, es[k].target, seen)[i];
        assert b[j][1..] == Enumerate(reg, aggs, es[k].target, seen)[j];
      }
    }
  }

  // c comes before d: it is a beginning of d, or takes an earlier edge where the two first differ.
  ghost predicate Before(c: seq<nat>, d: seq<nat>) {
    exists k: nat :: BeforeAt(c, d, k)
  }

  ghost predicate BeforeAt(c: seq<nat>, d: seq<nat>, k: nat) {
    k <= |c| && k < |d| && c[..k] == d[..k] && (k == |c| || c[k] < d[k])
  }

  ghost predicate Preorder(cs: seq<seq<nat>>) { forall i, j :: 0 <= i < j < |cs| ==> Before(cs[i], cs[j]) }

  // A type comes before what is gathered below it, and that in the order of its edges.
  lemma {:induction false} EnumeratedInOrder(reg: Registry, aggs: Aggregates, tid: TypeId, seen: seq<TypeId>)
    requires reg.Valid(aggs) && tid < |reg.types| && Ancestors(reg, seen)
    ensures Preorder(Enumerate(reg, aggs, tid, seen))
    decreases |reg.types| - |seen|, 0, 1
  {
    hide Edges, EnumerateFrom;
    if tid !in seen {
      AncestorsGrow(reg, seen, tid);
      EdgesInRange(reg, aggs, tid);
      var es := Edges(reg, aggs, tid);
      var r := EnumerateFrom(reg, aggs, es, seen + [tid]);
      EnumeratedFromInOrder(reg, aggs, es, seen + [tid]);
      forall j | 0 <= j < |r| ensures Before([], r[j]) {
        assert r[j] in r;
        EnumeratedFromIff(reg, aggs, es, seen + [tid], r[j]);
        assert BeforeAt([], r[j], 0);
      }
    }
  }

  lemma {:induction false} EnumeratedFromInOrder(reg: Registry, aggs: Aggregates, es: seq<Edge>, seen: seq<TypeId>)
    requires reg.Valid(aggs) && InRange(reg, es) && Ancestors(reg, seen)
    ensures Preorder(EnumerateFrom(reg, aggs, es, seen))
    decreases |reg.types| - |seen|, |es|, 2
  {
    if es != [] {
      hide Enumerate, Before;
      var k := |es| - 1;
      EnumeratedFromInOrder(reg, aggs, es[..k], seen);
      EnumeratedInOrder(reg, aggs, es[k].target, seen);
      var a, cs := EnumerateFrom(reg, aggs, es[..k], seen), Enumerate(reg, aggs, es[k].target, seen);
      var b := Prefixed(k, cs);
      PrefixedInOrder(k, cs);
      forall i, j | 0 <= i < |a| && 0 <= j < |b| ensures Before(a[i], b[j]) {
        assert a[i] in a && b[j] in b;
        EnumeratedFromIff(reg, aggs, es[..k], seen, a[i]);
        EarlierEdge(a[i], b[j]);
      }
    }
  }

  lemma EarlierEdge(c: seq<nat>, d: seq<nat>)
    requires c != [] && d != [] && c[0] < d[0]
    ensures Before(c, d)
  {
    assert BeforeAt(c, d, 0);
  }

  lemma PrefixedInOrder(k: nat, cs: seq<seq<nat>>)
    requires Preorder(cs)
    ensures Preorder(Prefixed(k, cs))
  {
    var r := Prefixed(k, cs);
    forall i, j | 0 <= i < j < |r| ensures Before(r[i], r[j]) {
      var c, d := cs[i], cs[j];
      assert Before(c, d);
      var m: nat :| BeforeAt(c, d, m);
      assert ([k] + c)[..m + 1] == [k] + c[..m] && ([k] + d)[..m + 1] == [k] + d[..m];
      assert BeforeAt([k] + c, [k] + d, m + 1);
    }
  }

  // ---- the output is the list of enumerated paths, entry by entry ----

  ghost predicate Matches(reg: Registry, aggs: Aggregates, tid: TypeId, path: seq<string>, cs: seq<seq<nat>>,
                          out: seq<Entry>)
    requires reg.Valid(aggs)
  {
    && |out| == |cs|
    && forall i :: 0 <= i < |cs| ==>
         IsPath(reg, aggs, tid, cs[i]) && out[i] == EntryOf(reg, aggs, tid, path, cs[i])
  }

  lemma {:induction false} GatheredMatches(reg: Registry, aggs: Aggregates, tid: TypeId, path: seq<string>,
                                        seen: seq<TypeId>)
    requires reg.Valid(aggs) && tid < |reg.types| && Ancestors(reg, seen)
    ensures Matches(reg, aggs, tid, path, Enumerate(reg, aggs, tid, seen), Gathered(reg, aggs, tid, path, seen))
    decreases |reg.types| - |seen|, 0, 1
  {
    hide Edges, Render;
    if tid !in seen {
      AncestorsGrow(reg, seen, tid);
      EdgesInRange(reg, aggs, tid);
      GatheredFromMatches(reg, aggs, tid, |Edges(reg, aggs, tid)|, path, seen + [tid]);
      var es := Edges(reg, aggs, tid);
      assert es[..|es|] == es;
      assert EntryOf(reg, aggs, tid, path, []) == (tid, Render(path)) by { assert path + [] == path; }
    }
  }

  lemma {:induction false} GatheredFromMatches(reg: Registry, aggs: Aggregates, tid: TypeId, n: nat,
                                        path: seq<string>, seen: seq<TypeId>)
    requires reg.Valid(aggs) && tid < |reg.types| && n <= |Edges(reg, aggs, tid)| && Ancestors(reg, seen)
    ensures InRange(reg, Edges(reg, aggs, tid))
    ensures var es := Edges(reg, aggs, tid)[..n];
            Matches(reg, aggs, tid, path, EnumerateFrom(reg, aggs, es, seen), GatheredFrom(reg, aggs, es, path, seen))
    decreases |reg.types| - |seen|, n, 2
  {
    hide Edges, Render;
    EdgesInRange(reg, aggs, tid);
    if n > 0 {
      var all := Edges(reg, aggs, tid);
      var es, e := all[..n], all[n - 1];
      assert es[..n - 1] == all[..n - 1];
      GatheredFromMatches(reg, aggs, tid, n - 1, path, seen);
      GatheredMatches(reg, aggs, e.target, path + [e.tag], seen);
      PrefixedMatches(reg, aggs, tid, n - 1, path, Enumerate(reg, aggs, e.target, seen),
                      Gathered(reg, aggs, e.target, path + [e.tag], seen));
    }
  }

  // Taking one more edge in front prepends its label.
  lemma PrefixedMatches(reg: Registry, aggs: Aggregates, tid: TypeId, k: nat, path: seq<string>, cs: seq<seq<nat>>,
                        out: seq<Entry>)
    requires reg.Valid(aggs) && tid < |reg.types| && k < |Edges(reg, aggs, tid)|
    requires var e := Edges(reg, aggs, tid)[k]; Matches(reg, aggs, e.target, path + [e.tag], cs, out)
    ensures Matches(reg, aggs, tid, path, Prefixed(k, cs), out)
  {
    hide Edges, Render;
    var e := Edges(reg, aggs, tid)[k];
    forall i | 0 <= i < |cs|
      ensures IsPath(reg, aggs, tid, [k] + cs[i]) && out[i] == EntryOf(reg, aggs, tid, path, [k] + cs[i])
    {
      var c := [k] + cs[i];
      assert c[0] == k && c[1..] == cs[i];
      assert path + Labels(reg, aggs, tid, c) == path + [e.tag] + Labels(reg, aggs, e.target, cs[i]);
    }
  }

  // ---- main results ----

  // cs lists the simple paths from the root, each once, and out their ends and labels.
  ghost predicate ListsPaths(reg: Registry, aggs: Aggregates, root: TypeId, cs: seq<seq<nat>>, out: seq<Entry>)
    requires reg.Valid(aggs)
  {
    && NoDup(cs) && (forall c :: c in cs <==> SimplePath(reg, aggs, root, c, []))
    && |out| == |cs|
    && forall i :: 0 <= i < |cs| ==>
         && IsPath(reg, aggs, root, cs[i]) && out[i].0 == End(reg, aggs, root, cs[i])
         && LaidOut(Labels(reg, aggs, root, cs[i]), out[i].1)
  }

  // Starting from an empty stack, DoGather's output and the simple paths from the root correspond
  // one to one, in preorder: the i-th entry is the end of path cs[i] and its labels behind slashes.
  lemma GatheredPaths(reg: Registry, aggs: Aggregates, root: TypeId)
    requires reg.Valid(aggs) && root < |reg.types|
    ensures exists cs :: Preorder(cs) && ListsPaths(reg, aggs, root, cs, Gathered(reg, aggs, root, [], []))
  {
    assert Ancestors(reg, []);
    hide Edges, SimplePath, Gathered, Enumerate, LaidOut, IsPath, End, Labels, Render, Preorder, NoDup, Ancestors;
    var cs, out := Enumerate(reg, aggs, root, []), Gathered(reg, aggs, root, [], []);
    EnumeratedInOrder(reg, aggs, root, []);
    EnumeratedOnce(reg, aggs, root, []);
    forall c ensures c in cs <==> SimplePath(reg, aggs, root, c, []) {
      EnumeratedIff(reg, aggs, root, [], c);
    }
    GatheredMatches(reg, aggs, root, [], []);
    forall i | 0 <= i < |cs|
      ensures IsPath(reg, aggs, root, cs[i]) && out[i].0 == End(reg, aggs, root, cs[i])
      ensures LaidOut(Labels(reg, aggs, root, cs[i]), out[i].1)
    {
      assert out[i] == EntryOf(reg, aggs, root, [], cs[i]);
      assert [] + Labels(reg, aggs, root, cs[i]) == Labels(reg, aggs, root, cs[i]);
      RenderLaidOut(Labels(reg, aggs, root, cs[i]));
    }
    assert ListsPaths(reg, aggs, root, cs, out);
  }

  // The same with rendered labels, whatever the order.
  lemma OneEntryPerSimplePath(reg: Registry, aggs: Aggregates, root: TypeId)
    requires reg.Valid(aggs) && root < |reg.types|
    ensures exists cs ::
              && NoDup(cs) && (forall c :: c in cs <==> SimplePath(reg, aggs, root, c, []))
              && Matches(reg, aggs, root, [], cs, Gathered(reg, aggs, root, [], []))
  {
    hide Edges, SimplePath, Matches;
    var cs := Enumerate(reg, aggs, root, []);
    EnumeratedOnce(reg, aggs, root, []);
    forall c ensures c in cs <==> SimplePath(reg, aggs, root, c, []) {
      EnumeratedIff(reg, aggs, root, [], c);
    }
    GatheredMatches(reg, aggs, root, [], []);
  }

  lemma {:induction false} PathsOfIff(out: seq<Entry>, tid: TypeId, s: string)
    ensures s in PathsOf(out, tid) <==> (tid, s) in out
  {
    if out != [] {
      var k := |out| - 1;
      PathsOfIff(out[..k], tid, s);
      assert out == out[..k] + [out[k]];
    }
  }

  // Get lists for a type exactly the renderings of the simple paths that end at it.
  lemma GetListsSimplePaths(reg: Registry, aggs: Aggregates, root: TypeId, tid: TypeId, s: string)
    requires reg.Valid(aggs) && root < |reg.types|
    ensures s in PathsOf(Gathered(reg, aggs, root, [], []), tid) <==>
            exists c :: SimplePath(reg, aggs, root, c, []) && EntryOf(reg, aggs, root, [], c) == (tid, s)
  {
    hide Edges, EntryOf;
    var out := Gathered(reg, aggs, root, [], []);
    PathsOfIff(out, tid, s);
    OneEntryPerSimplePath(reg, aggs, root);
    var cs :| NoDup(cs) && (forall c :: c in cs <==> SimplePath(reg, aggs, root, c, [])) &&
        Matches(reg, aggs, root, [], cs, out);
    if (tid, s) in out {
      var i :| 0 <= i < |out| && out[i] == (tid, s);
      assert cs[i] in cs;
    }
    if c :| SimplePath(reg, aggs, root, c, []) && EntryOf(reg, aggs, root, [], c) == (tid, s) {
      var i :| 0 <= i < |cs| && cs[i] == c;
      assert out[i] == (tid, s);
    }
  }
}

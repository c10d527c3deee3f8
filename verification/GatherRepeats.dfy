/** When the output of Gather holds an entry twice, told from the type graph. */
module GatherRepeats {
  import opened Sequences
  import opened Gather

  // ---- the condition ----

  ghost predicate NoSlash(s: string) { forall i :: 0 <= i < |s| ==> s[i] != '/' }

  ghost predicate Child(s: string) { s != [] && s[0] == '$' }

  function Tag(reg: Registry, u: TypeId): string
    requires u < |reg.types|
  {
    "$" + reg.types[u].name
  }

  // The label of a step through an attribute.
  function AttributeTag(a: Attribute): string {
    if a.ContainerOf? then a.name + "/[i]" else a.name
  }

  // Registered types have different names, and so have the attributes of a type. No name holds a
  // slash, and no attribute is named like a child or like the items of a container.
  ghost predicate Clear(reg: Registry) {
    && (forall t, u :: 0 <= t < u < |reg.types| ==> reg.types[t].name != reg.types[u].name)
    && (forall t :: 0 <= t < |reg.types| ==> NoSlash(reg.types[t].name) && ClearNames(reg.types[t].attributes))
  }

  ghost predicate ClearNames(attributes: seq<Attribute>) {
    && (forall i, j :: 0 <= i < j < |attributes| ==> attributes[i].name != attributes[j].name)
    && (forall i :: 0 <= i < |attributes| ==>
          NoSlash(attributes[i].name) && !Child(attributes[i].name) && attributes[i].name != "[i]")
  }

  ghost predicate Joins(pair: (TypeId, TypeId), t: TypeId, u: TypeId) { pair == (t, u) || pair == (u, t) }

  ghost predicate Recorded(aggs: Aggregates, t: TypeId, u: TypeId) {
    exists k :: 0 <= k < |aggs| && Joins(aggs[k], t, u)
  }

  ghost predicate RecordedTwice(aggs: Aggregates, t: TypeId, u: TypeId) {
    exists k, l :: 0 <= k < l < |aggs| && Joins(aggs[k], t, u) && Joins(aggs[l], t, u)
  }

  // The aggregation of t and u is recorded twice, in either order, or u derives from t and is also
  // aggregated with it.
  ghost predicate Doubled(reg: Registry, aggs: Aggregates, t: TypeId, u: TypeId) {
    RecordedTwice(aggs, t, u) || ((u, t) in reg.isChild && Recorded(aggs, t, u))
  }

  // A simple path from tid, outside seen, that a doubled step leads on to a type not yet visited.
  ghost predicate DoubledStep(reg: Registry, aggs: Aggregates, tid: TypeId, seen: seq<TypeId>, p: seq<nat>, u: TypeId)
    requires reg.Valid(aggs)
  {
    && SimplePath(reg, aggs, tid, p, seen) && u < |reg.types| && u !in seen && u !in Visited(reg, aggs, tid, p)
    && Doubled(reg, aggs, End(reg, aggs, tid, p), u)
  }

  // ---- rendered paths can be read back ----

  lemma LastSlash(x: string, a: string, y: string, b: string)
    requires NoSlash(a) && NoSlash(b) && x + "/" + a == y + "/" + b
    ensures x == y && a == b
  {
    var s := x + "/" + a;
    assert s[|x|] == '/' && (y + "/" + b)[|y|] == '/' && |x| == |y|;
    assert s[..|x|] == x && s[..|x|] == y;
    assert s[|x| + 1..] == a && s[|x| + 1..] == b;
  }

  // A label is one segment, or one segment and "[i]".
  ghost predicate Label(s: string) {
    (NoSlash(s) && s != "[i]") || exists a :: NoSlash(a) && s == a + "/[i]"
  }

  lemma ItemSegment(x: string, a: string)
    ensures x + "/" + (a + "/[i]") == (x + "/" + a) + "/" + "[i]"
    ensures NoSlash("[i]")
  {
  }

  lemma LastLabel(x: string, a: string, y: string, b: string)
    requires Label(a) && Label(b) && x + "/" + a == y + "/" + b
    ensures x == y && a == b
  {
    var item := "[i]";
    if NoSlash(a) && NoSlash(b) {
      LastSlash(x, a, y, b);
    } else if NoSlash(a) {
      var b' :| NoSlash(b') && b == b' + "/[i]";
      ItemSegment(y, b');
      LastSlash(x, a, y + "/" + b', item);
    } else if NoSlash(b) {
      var a' :| NoSlash(a') && a == a' + "/[i]";
      ItemSegment(x, a');
      LastSlash(x + "/" + a', item, y, b);
    } else {
      var a' :| NoSlash(a') && a == a' + "/[i]";
      var b' :| NoSlash(b') && b == b' + "/[i]";
      ItemSegment(x, a');
      ItemSegment(y, b');
      LastSlash(x + "/" + a', item, y + "/" + b', item);
      LastSlash(x, a', y, b');
    }
  }

  ghost predicate AreLabels(path: seq<string>) { forall i :: 0 <= i < |path| ==> Label(path[i]) }

  // Different paths of labels are rendered differently.
  lemma {:induction false} RenderInjective(p: seq<string>, q: seq<string>)
    requires AreLabels(p) && AreLabels(q)
    ensures Render(p) == Render(q) <==> p == q
  {
    hide Label;
    if Render(p) == Render(q) && p != [] && q != [] {
      var j, k := |p| - 1, |q| - 1;
      LastLabel(Render(p[..j]), p[j], Render(q[..k]), q[k]);
      RenderInjective(p[..j], q[..k]);
      assert p == p[..j] + [p[j]] && q == q[..k] + [q[k]];
    }
  }

  // ---- the edges of a type, by where they come from ----

  ghost predicate FromAttribute(attributes: seq<Attribute>, tag: string) {
    exists a :: a in attributes && AttributeTag(a) == tag
  }

  ghost predicate FromAttributes(attributes: seq<Attribute>, es: seq<Edge>) {
    forall i :: 0 <= i < |es| ==> FromAttribute(attributes, es[i].tag)
  }

  // Different labels, none like that of a child.
  ghost predicate AttributeLabels(es: seq<Edge>) {
    && (forall i :: 0 <= i < |es| ==> Label(es[i].tag) && !Child(es[i].tag))
    && forall i, j :: 0 <= i < j < |es| ==> es[i].tag != es[j].tag
  }

  ghost predicate TypeLabels(reg: Registry, es: seq<Edge>) {
    forall i :: 0 <= i < |es| ==> es[i].target < |reg.types| && es[i].tag == Tag(reg, es[i].target)
  }

  lemma {:induction false} AttributeFrom(reg: Registry, attributes: seq<Attribute>)
    ensures FromAttributes(attributes, AttributeEdges(reg, attributes))
  {
    if attributes != [] {
      var k := |attributes| - 1;
      AttributeFrom(reg, attributes[..k]);
      var es, fs := AttributeEdges(reg, attributes), AttributeEdges(reg, attributes[..k]);
      assert attributes[k] in attributes;
      forall i | 0 <= i < |es| ensures FromAttribute(attributes, es[i].tag) {
        if i < |fs| {
          assert FromAttributes(attributes[..k], fs);
          assert FromAttribute(attributes[..k], fs[i].tag);
          var a :| a in attributes[..k] && AttributeTag(a) == fs[i].tag;
          assert es[i] == fs[i] && a in attributes;
        } else {
          assert AttributeTag(attributes[k]) == es[i].tag;
        }
      }
    }
  }

  lemma {:induction false} AttributeTags(reg: Registry, attributes: seq<Attribute>)
    requires ClearNames(attributes)
    ensures AttributeLabels(AttributeEdges(reg, attributes))
  {
    if attributes != [] {
      hide AttributeTag, Label, NoSlash, Child, AttributeEdges, AttributeLabels;
      var k := |attributes| - 1;
      var es, fs := AttributeEdges(reg, attributes), AttributeEdges(reg, attributes[..k]);
      AttributeTags(reg, attributes[..k]);
      LastTag(reg, attributes);
      if es != fs {
        NewTag(reg, attributes);
        LabelsSnoc(fs, es[|fs|]);
        assert es == fs + [es[|fs|]];
      }
    } else {
      assert AttributeEdges(reg, attributes) == [];
    }
  }

  lemma LabelsSnoc(fs: seq<Edge>, e: Edge)
    requires AttributeLabels(fs) && Label(e.tag) && !Child(e.tag) && forall i :: 0 <= i < |fs| ==> fs[i].tag != e.tag
    ensures AttributeLabels(fs + [e])
  {
    hide Label, Child;
  }

  lemma NewTag(reg: Registry, attributes: seq<Attribute>)
    requires ClearNames(attributes) && attributes != []
    ensures var k := |attributes| - 1;
            var fs, tag := AttributeEdges(reg, attributes[..k]), AttributeTag(attributes[k]);
            Label(tag) && !Child(tag) && forall i :: 0 <= i < |fs| ==> fs[i].tag != tag
  {
    hide AttributeTag, Label, NoSlash, Child, AttributeEdges;
    var k := |attributes| - 1;
    var fs := AttributeEdges(reg, attributes[..k]);
    AttributeFrom(reg, attributes[..k]);
    TagIsLabel(attributes[k]);
    forall i | 0 <= i < |fs| ensures fs[i].tag != AttributeTag(attributes[k]) {
      var m :| 0 <= m < k && AttributeTag(attributes[..k][m]) == fs[i].tag;
      TagsDiffer(attributes[m], attributes[k]);
    }
  }

  lemma LastTag(reg: Registry, attributes: seq<Attribute>)
    requires attributes != []
    ensures var es, fs := AttributeEdges(reg, attributes), AttributeEdges(reg, attributes[..|attributes| - 1]);
            || es == fs
            || (|es| == |fs| + 1 && es[..|fs|] == fs && es[|fs|].tag == AttributeTag(attributes[|attributes| - 1]))
  {
  }

  lemma TagIsLabel(a: Attribute)
    requires NoSlash(a.name) && !Child(a.name) && a.name != "[i]"
    ensures Label(AttributeTag(a)) && !Child(AttributeTag(a))
  {
  }

  lemma TagsDiffer(a: Attribute, b: Attribute)
    requires NoSlash(a.name) && NoSlash(b.name) && a.name != b.name
    ensures AttributeTag(a) != AttributeTag(b)
  {
    var item := "/[i]";
    assert (a.name + item)[|a.name|] == '/' && (b.name + item)[|b.name|] == '/';
    assert (a.name + item)[..|a.name|] == a.name && (b.name + item)[..|b.name|] == b.name;
  }

  // Edges to types below n that derive from tid, each type once.
  ghost predicate ChildLabels(reg: Registry, tid: TypeId, n: nat, es: seq<Edge>) {
    && TypeLabels(reg, es)
    && (forall i :: 0 <= i < |es| ==> es[i].target < n && (es[i].target, tid) in reg.isChild)
    && forall i, j :: 0 <= i < j < |es| ==> es[i].target < es[j].target
  }

  // Each child is one edge.
  lemma {:induction false} ChildTags(reg: Registry, tid: TypeId, n: nat)
    requires n <= |reg.types|
    ensures ChildLabels(reg, tid, n, ChildEdges(reg, tid, n))
  {
    if n > 0 {
      hide ChildLabels;
      ChildTags(reg, tid, n - 1);
      ChildLabelsSnoc(reg, tid, n, ChildEdges(reg, tid, n - 1));
      assert ChildEdges(reg, tid, n - 1) + [] == ChildEdges(reg, tid, n - 1);
    }
  }

  lemma ChildLabelsSnoc(reg: Registry, tid: TypeId, n: nat, es: seq<Edge>)
    requires 0 < n <= |reg.types| && ChildLabels(reg, tid, n - 1, es)
    ensures ChildLabels(reg, tid, n, es)
    ensures (n - 1, tid) in reg.isChild ==> ChildLabels(reg, tid, n, es + [Edge("$" + reg.types[n - 1].name, n - 1)])
  {
  }

  lemma {:induction false} ChildMembers(reg: Registry, tid: TypeId, n: nat, u: nat)
    requires u < n <= |reg.types| && (u, tid) in reg.isChild
    ensures Edge(Tag(reg, u), u) in ChildEdges(reg, tid, n)
  {
    if u < n - 1 {
      ChildMembers(reg, tid, n - 1, u);
    }
  }

  ghost predicate LeadsTo(es: seq<Edge>, u: TypeId) { exists i :: 0 <= i < |es| && es[i].target == u }

  ghost predicate LeadsTwice(es: seq<Edge>, u: TypeId) {
    exists i, j :: 0 <= i < j < |es| && es[i].target == u == es[j].target
  }

  lemma LeadsSnoc(es: seq<Edge>, e: Edge, u: TypeId)
    ensures LeadsTo(es + [e], u) <==> LeadsTo(es, u) || e.target == u
    ensures LeadsTwice(es + [e], u) <==> LeadsTwice(es, u) || (LeadsTo(es, u) && e.target == u)
  {
    var fs := es + [e];
    assert forall i :: 0 <= i < |es| ==> fs[i] == es[i];
    assert fs[|es|] == e;
  }

  lemma RecordedSnoc(aggs: Aggregates, pair: (TypeId, TypeId), t: TypeId, u: TypeId)
    ensures Recorded(aggs + [pair], t, u) <==> Recorded(aggs, t, u) || Joins(pair, t, u)
    ensures RecordedTwice(aggs + [pair], t, u) <==>
            RecordedTwice(aggs, t, u) || (Recorded(aggs, t, u) && Joins(pair, t, u))
  {
    hide Joins;
    var r := aggs + [pair];
    assert forall i :: 0 <= i < |aggs| ==> r[i] == aggs[i];
    assert r[|aggs|] == pair;
  }

  // Each record of an aggregation with tid is one edge.
  lemma {:induction false} AggregatePairs(reg: Registry, tid: TypeId, aggs: Aggregates, u: TypeId)
    requires reg.Valid(aggs)
    ensures LeadsTo(AggregateEdges(reg, tid, aggs), u) <==> Recorded(aggs, tid, u)
    ensures LeadsTwice(AggregateEdges(reg, tid, aggs), u) <==> RecordedTwice(aggs, tid, u)
  {
    if aggs != [] {
      hide LeadsTo, LeadsTwice, Recorded, RecordedTwice;
      var n := |aggs| - 1;
      var fs, pair := AggregateEdges(reg, tid, aggs[..n]), aggs[n];
      assert aggs[..n] + [pair] == aggs;
      AggregatePairs(reg, tid, aggs[..n], u);
      RecordedSnoc(aggs[..n], pair, tid, u);
      LeadsSnoc(fs, Edge(Tag(reg, Other(pair, tid)), Other(pair, tid)), u);
      assert fs + [] == fs;
    }
  }

  lemma {:induction false} AggregateTags(reg: Registry, tid: TypeId, aggs: Aggregates)
    requires reg.Valid(aggs)
    ensures TypeLabels(reg, AggregateEdges(reg, tid, aggs))
  {
    if aggs != [] {
      AggregateTags(reg, tid, aggs[..|aggs| - 1]);
    }
  }

  // ---- equal labels at a type ----

  lemma NamesDiffer(reg: Registry, t: TypeId, u: TypeId)
    requires Clear(reg) && t < |reg.types| && u < |reg.types| && Tag(reg, t) == Tag(reg, u)
    ensures t == u
  {
    assert Tag(reg, t)[1..] == reg.types[t].name && Tag(reg, u)[1..] == reg.types[u].name;
  }

  lemma TypeTag(reg: Registry, u: TypeId)
    requires Clear(reg) && u < |reg.types|
    ensures Label(Tag(reg, u)) && Child(Tag(reg, u))
  {
    var s := Tag(reg, u);
    assert s[0] == '$' && forall i :: 0 < i < |s| ==> s[i] == reg.types[u].name[i - 1];
    assert NoSlash(s) && s != "[i]";
  }

  lemma EdgeTags(reg: Registry, aggs: Aggregates, tid: TypeId)
    requires reg.Valid(aggs) && Clear(reg) && tid < |reg.types|
    ensures forall i :: 0 <= i < |Edges(reg, aggs, tid)| ==> Label(Edges(reg, aggs, tid)[i].tag)
  {
    hide AttributeEdges, ChildEdges, AggregateEdges, Label, ClearNames, NoSlash, Tag;
    AttributeTags(reg, reg.types[tid].attributes);
    ChildTags(reg, tid, |reg.types|);
    AggregateTags(reg, tid, aggs);
    forall u: nat | u < |reg.types| ensures Label(Tag(reg, u)) {
      TypeTag(reg, u);
    }
    var a := AttributeEdges(reg, reg.types[tid].attributes);
    var c, g := ChildEdges(reg, tid, |reg.types|), AggregateEdges(reg, tid, aggs);
    assert Edges(reg, aggs, tid) == a + c + g;
  }

  // Two edges of a type with the same label have the same target, and come from a doubled step.
  lemma SameTag(reg: Registry, aggs: Aggregates, tid: TypeId, j: nat, k: nat)
    requires reg.Valid(aggs) && Clear(reg) && tid < |reg.types| && j < k < |Edges(reg, aggs, tid)|
    requires Edges(reg, aggs, tid)[j].tag == Edges(reg, aggs, tid)[k].tag
    ensures Edges(reg, aggs, tid)[j].target == Edges(reg, aggs, tid)[k].target
    ensures Doubled(reg, aggs, tid, Edges(reg, aggs, tid)[j].target)
  {
    hide AttributeEdges, ChildEdges, AggregateEdges, ClearNames, NoSlash, Label, Child, Recorded, RecordedTwice, Tag;
    var a := AttributeEdges(reg, reg.types[tid].attributes);
    var c, g := ChildEdges(reg, tid, |reg.types|), AggregateEdges(reg, tid, aggs);
    var es := Edges(reg, aggs, tid);
    var e, f := es[j], es[k];
    AttributeTags(reg, reg.types[tid].attributes);
    ChildTags(reg, tid, |reg.types|);
    AggregateTags(reg, tid, aggs);
    assert e == if j < |a| then a[j] else if j < |a| + |c| then c[j - |a|] else g[j - |a| - |c|];
    assert k >= |a|;
    assert f == if k < |a| + |c| then c[k - |a|] else g[k - |a| - |c|];
    if j < |a| && k >= |a| {
      TypeTag(reg, f.target);
    }
    assert j >= |a|;
    NamesDiffer(reg, e.target, f.target);
    AggregatePairs(reg, tid, aggs, e.target);
  }

  // A doubled step is two edges with the same label and target.
  lemma DoubledEdges(reg: Registry, aggs: Aggregates, tid: TypeId, u: TypeId) returns (j: nat, k: nat)
    requires reg.Valid(aggs) && Clear(reg) && tid < |reg.types| && u < |reg.types| && Doubled(reg, aggs, tid, u)
    ensures j < k < |Edges(reg, aggs, tid)|
    ensures Edges(reg, aggs, tid)[j] == Edges(reg, aggs, tid)[k] == Edge(Tag(reg, u), u)
  {
    hide AttributeEdges, ChildEdges, AggregateEdges, Recorded, RecordedTwice, Clear, Tag;
    var a := AttributeEdges(reg, reg.types[tid].attributes);
    var c, g := ChildEdges(reg, tid, |reg.types|), AggregateEdges(reg, tid, aggs);
    ChildTags(reg, tid, |reg.types|);
    AggregateTags(reg, tid, aggs);
    AggregatePairs(reg, tid, aggs, u);
    if RecordedTwice(aggs, tid, u) {
      var x, y :| 0 <= x < y < |g| && g[x].target == u == g[y].target;
      j, k := |a| + |c| + x, |a| + |c| + y;
    } else {
      ChildMembers(reg, tid, |reg.types|, u);
      var x :| 0 <= x < |c| && c[x] == Edge(Tag(reg, u), u);
      var y :| 0 <= y < |g| && g[y].target == u;
      j, k := |a| + x, |a| + |c| + y;
    }
  }

  // ---- from two paths with the same labels to a doubled step, and back ----

  lemma SimpleAlone(reg: Registry, aggs: Aggregates, tid: TypeId, seen: seq<TypeId>)
    requires reg.Valid(aggs) && tid < |reg.types|
    ensures SimplePath(reg, aggs, tid, [], seen) <==> tid !in seen
  {
    assert Visited(reg, aggs, tid, []) == [tid];
  }

  lemma SimpleHead(reg: Registry, aggs: Aggregates, tid: TypeId, c: seq<nat>, seen: seq<TypeId>)
    requires reg.Valid(aggs) && SimplePath(reg, aggs, tid, c, seen)
    ensures IsPath(reg, aggs, tid, c) && tid < |reg.types| && tid !in seen
  {
    assert Visited(reg, aggs, tid, c)[0] == tid;
  }

  // At the first index where they differ, the two paths take a doubled step.
  lemma {:induction false} Diverge(reg: Registry, aggs: Aggregates, tid: TypeId, c: seq<nat>, d: seq<nat>,
                                   seen: seq<TypeId>)
    requires reg.Valid(aggs) && Clear(reg) && c != d
    requires SimplePath(reg, aggs, tid, c, seen) && SimplePath(reg, aggs, tid, d, seen)
    requires Labels(reg, aggs, tid, c) == Labels(reg, aggs, tid, d)
    ensures exists p, u :: DoubledStep(reg, aggs, tid, seen, p, u)
    decreases |c|
  {
    hide Edges, SimplePath, Doubled, Clear;
    SimpleHead(reg, aggs, tid, c, seen);
    SimpleHead(reg, aggs, tid, d, seen);
    var es, l := Edges(reg, aggs, tid), Labels(reg, aggs, tid, c);
    assert c != [] && d != [] && l[0] == es[c[0]].tag == es[d[0]].tag;
    var next := es[c[0]].target;
    SimpleStep(reg, aggs, tid, seen, c);
    SimpleStep(reg, aggs, tid, seen, d);
    SimpleHead(reg, aggs, next, c[1..], seen + [tid]);
    SimpleHead(reg, aggs, es[d[0]].target, d[1..], seen + [tid]);
    if c[0] == d[0] {
      assert l[1..] == Labels(reg, aggs, next, c[1..]) == Labels(reg, aggs, next, d[1..]);
      assert c == [c[0]] + c[1..] && d == [d[0]] + d[1..];
      Diverge(reg, aggs, next, c[1..], d[1..], seen + [tid]);
      var p, u :| DoubledStep(reg, aggs, next, seen + [tid], p, u);
      StepBefore(reg, aggs, tid, seen, c[0], p, u);
    } else {
      SimpleAlone(reg, aggs, tid, seen);
      assert Visited(reg, aggs, tid, []) == [tid] && End(reg, aggs, tid, []) == tid;
      SameTag(reg, aggs, tid, if c[0] < d[0] then c[0] else d[0], if c[0] < d[0] then d[0] else c[0]);
      assert DoubledStep(reg, aggs, tid, seen, [], next);
    }
  }

  lemma StepBefore(reg: Registry, aggs: Aggregates, tid: TypeId, seen: seq<TypeId>, k: nat, p: seq<nat>, u: TypeId)
    requires reg.Valid(aggs) && tid < |reg.types| && k < |Edges(reg, aggs, tid)| && tid !in seen
    requires DoubledStep(reg, aggs, Edges(reg, aggs, tid)[k].target, seen + [tid], p, u)
    ensures DoubledStep(reg, aggs, tid, seen, [k] + p, u)
  {
    hide Edges, SimplePath, Doubled;
    var c := [k] + p;
    var next := Edges(reg, aggs, tid)[k].target;
    assert c[0] == k && c[1..] == p;
    SimpleStep(reg, aggs, tid, seen, c);
    SimpleHead(reg, aggs, tid, c, seen);
    assert Visited(reg, aggs, tid, c) == [tid] + Visited(reg, aggs, next, p);
  }

  // Two different simple paths with the same end and the same labels.
  ghost predicate Twins(reg: Registry, aggs: Aggregates, tid: TypeId, seen: seq<TypeId>, c: seq<nat>, d: seq<nat>)
    requires reg.Valid(aggs)
  {
    && c != d && SimplePath(reg, aggs, tid, c, seen) && SimplePath(reg, aggs, tid, d, seen)
    && Labels(reg, aggs, tid, c) == Labels(reg, aggs, tid, d) && End(reg, aggs, tid, c) == End(reg, aggs, tid, d)
  }

  lemma {:induction false} Converge(reg: Registry, aggs: Aggregates, tid: TypeId, seen: seq<TypeId>, p: seq<nat>,
                                    u: TypeId)
    requires reg.Valid(aggs) && Clear(reg) && DoubledStep(reg, aggs, tid, seen, p, u)
    ensures exists c, d :: Twins(reg, aggs, tid, seen, c, d)
    decreases |p|
  {
    hide Edges, SimplePath, Doubled, Clear;
    SimpleHead(reg, aggs, tid, p, seen);
    if p == [] {
      assert Visited(reg, aggs, tid, []) == [tid];
      var j, k := DoubledEdges(reg, aggs, tid, u);
      OneStep(reg, aggs, tid, seen, j);
      OneStep(reg, aggs, tid, seen, k);
      var c, d: seq<nat> := [j], [k];
      assert c[0] != d[0];
      SimpleHead(reg, aggs, tid, c, seen);
      SimpleHead(reg, aggs, tid, d, seen);
      assert Twins(reg, aggs, tid, seen, c, d);
    } else {
      var next := Edges(reg, aggs, tid)[p[0]].target;
      SimpleStep(reg, aggs, tid, seen, p);
      assert Visited(reg, aggs, tid, p) == [tid] + Visited(reg, aggs, next, p[1..]);
      assert DoubledStep(reg, aggs, next, seen + [tid], p[1..], u);
      Converge(reg, aggs, next, seen + [tid], p[1..], u);
      var c, d :| Twins(reg, aggs, next, seen + [tid], c, d);
      TwinsBefore(reg, aggs, tid, seen, p[0], c, d);
    }
  }

  lemma OneStep(reg: Registry, aggs: Aggregates, tid: TypeId, seen: seq<TypeId>, k: nat)
    requires reg.Valid(aggs) && tid < |reg.types| && k < |Edges(reg, aggs, tid)| && tid !in seen
    requires var u := Edges(reg, aggs, tid)[k].target; u < |reg.types| && u != tid && u !in seen
    ensures SimplePath(reg, aggs, tid, [k], seen)
    ensures Labels(reg, aggs, tid, [k]) == [Edges(reg, aggs, tid)[k].tag]
    ensures End(reg, aggs, tid, [k]) == Edges(reg, aggs, tid)[k].target
  {
    hide Edges;
    var e, c := Edges(reg, aggs, tid)[k], [k];
    assert c[0] == k && c[1..] == [];
    SimpleAlone(reg, aggs, e.target, seen + [tid]);
    SimpleStep(reg, aggs, tid, seen, c);
    assert Labels(reg, aggs, e.target, []) == [] && Labels(reg, aggs, tid, c) == [e.tag] + [];
  }

  lemma TwinsBefore(reg: Registry, aggs: Aggregates, tid: TypeId, seen: seq<TypeId>, k: nat, c: seq<nat>, d: seq<nat>)
    requires reg.Valid(aggs) && tid < |reg.types| && k < |Edges(reg, aggs, tid)| && tid !in seen
    requires Twins(reg, aggs, Edges(reg, aggs, tid)[k].target, seen + [tid], c, d)
    ensures Twins(reg, aggs, tid, seen, [k] + c, [k] + d)
  {
    hide Edges, SimplePath;
    var c', d' := [k] + c, [k] + d;
    assert c'[0] == k == d'[0] && c'[1..] == c && d'[1..] == d;
    SimpleStep(reg, aggs, tid, seen, c');
    SimpleStep(reg, aggs, tid, seen, d');
    SimpleHead(reg, aggs, tid, c', seen);
    SimpleHead(reg, aggs, tid, d', seen);
    assert c'[0] == d'[0] && c' != d' by {
      assert c'[1..] != d'[1..];
    }
  }

  // ---- main results ----

  lemma RepeatsArePaths(reg: Registry, aggs: Aggregates, root: TypeId)
    requires reg.Valid(aggs) && root < |reg.types|
    ensures !NoDup(Gathered(reg, aggs, root, [], [])) <==>
            exists c, d :: c != d && SimplePath(reg, aggs, root, c, []) && SimplePath(reg, aggs, root, d, []) &&
                           EntryOf(reg, aggs, root, [], c) == EntryOf(reg, aggs, root, [], d)
  {
    hide Edges, Gathered;
    var out := Gathered(reg, aggs, root, [], []);
    OneEntryPerSimplePath(reg, aggs, root);
    var cs :| NoDup(cs) && (forall c :: c in cs <==> SimplePath(reg, aggs, root, c, [])) &&
              Matches(reg, aggs, root, [], cs, out);
    hide NoDup, SimplePath, Matches, EntryOf;
    MatchedTwice(reg, aggs, root, cs, out);
  }

  // The list repeats an entry exactly when two members of cs have the same entry.
  lemma MatchedTwice(reg: Registry, aggs: Aggregates, root: TypeId, cs: seq<seq<nat>>, out: seq<Entry>)
    requires reg.Valid(aggs) && NoDup(cs) && Matches(reg, aggs, root, [], cs, out)
    ensures forall c :: c in cs ==> IsPath(reg, aggs, root, c)
    ensures !NoDup(out) <==> exists c, d :: c != d && c in cs && d in cs &&
                                            EntryOf(reg, aggs, root, [], c) == EntryOf(reg, aggs, root, [], d)
  {
    hide EntryOf, IsPath;
    if !NoDup(out) {
      var i, j :| 0 <= i < j < |out| && out[i] == out[j];
      assert cs[i] in cs && cs[j] in cs && cs[i] != cs[j];
    }
    if c, d :| c != d && c in cs && d in cs && EntryOf(reg, aggs, root, [], c) == EntryOf(reg, aggs, root, [], d) {
      var i :| 0 <= i < |cs| && cs[i] == c;
      var j :| 0 <= j < |cs| && cs[j] == d;
      assert out[i] == out[j];
    }
  }

  lemma {:induction false} LabelsOk(reg: Registry, aggs: Aggregates, tid: TypeId, c: seq<nat>)
    requires reg.Valid(aggs) && Clear(reg) && IsPath(reg, aggs, tid, c)
    ensures AreLabels(Labels(reg, aggs, tid, c))
    decreases |c|
  {
    hide Edges, Clear, Label;
    if c != [] {
      EdgeTags(reg, aggs, tid);
      LabelsOk(reg, aggs, Edges(reg, aggs, tid)[c[0]].target, c[1..]);
    }
  }

  lemma SameEntry(reg: Registry, aggs: Aggregates, root: TypeId, c: seq<nat>, d: seq<nat>)
    requires reg.Valid(aggs) && Clear(reg) && IsPath(reg, aggs, root, c) && IsPath(reg, aggs, root, d)
    ensures EntryOf(reg, aggs, root, [], c) == EntryOf(reg, aggs, root, [], d) <==>
            End(reg, aggs, root, c) == End(reg, aggs, root, d) &&
            Labels(reg, aggs, root, c) == Labels(reg, aggs, root, d)
  {
    hide Clear, Render, IsPath, End, Labels, AreLabels;
    var l, m := Labels(reg, aggs, root, c), Labels(reg, aggs, root, d);
    assert [] + l == l && [] + m == m;
    LabelsOk(reg, aggs, root, c);
    LabelsOk(reg, aggs, root, d);
    RenderInjective(l, m);
  }

  // The output repeats an entry exactly when some simple path from the root leads to a type with a
  // doubled step to a type the path has not visited; Gather's call of Uniquefy, on a copy, does not
  // remove the repetition.
  lemma RepeatsIff(reg: Registry, aggs: Aggregates, root: TypeId)
    requires reg.Valid(aggs) && Clear(reg) && root < |reg.types|
    ensures !NoDup(Gathered(reg, aggs, root, [], [])) <==> exists p, u :: DoubledStep(reg, aggs, root, [], p, u)
  {
    hide Clear, EntryOf, DoubledStep, Gathered, Edges;
    RepeatsArePaths(reg, aggs, root);
    if !NoDup(Gathered(reg, aggs, root, [], [])) {
      var c, d :| c != d && SimplePath(reg, aggs, root, c, []) && SimplePath(reg, aggs, root, d, []) &&
                  EntryOf(reg, aggs, root, [], c) == EntryOf(reg, aggs, root, [], d);
      SameEntry(reg, aggs, root, c, d);
      Diverge(reg, aggs, root, c, d, []);
    }
    if p, u :| DoubledStep(reg, aggs, root, [], p, u) {
      Converge(reg, aggs, root, [], p, u);
      var c, d :| Twins(reg, aggs, root, [], c, d);
      SameEntry(reg, aggs, root, c, d);
    }
  }

  // It does happen: registering the same aggregation twice gives the same entry twice.
  lemma RepeatsExample()
    ensures var reg := Registry([TypeInfo("A", []), TypeInfo("B", [])], 2, {});
            var aggs: Aggregates := [(0, 1), (0, 1)];
            reg.Valid(aggs) && Clear(reg) && !NoDup(Gathered(reg, aggs, 0, [], []))
  {
    var reg := Registry([TypeInfo("A", []), TypeInfo("B", [])], 2, {});
    var aggs: Aggregates := [(0, 1), (0, 1)];
    assert reg.Valid(aggs) && Clear(reg);
    assert Joins(aggs[0], 0, 1) && Joins(aggs[1], 0, 1);
    assert Doubled(reg, aggs, 0, 1);
    hide *;
    DoubledAtRoot(reg, aggs, 0, 1);
    RepeatsIff(reg, aggs, 0);
  }

  lemma DoubledAtRoot(reg: Registry, aggs: Aggregates, root: TypeId, u: TypeId)
    requires reg.Valid(aggs) && root < |reg.types| && u < |reg.types| && u != root && Doubled(reg, aggs, root, u)
    ensures DoubledStep(reg, aggs, root, [], [], u)
  {
    hide Edges, Doubled;
    SimpleAlone(reg, aggs, root, []);
  }
}

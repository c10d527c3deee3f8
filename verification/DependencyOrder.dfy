/** sort_to_dependencies of bindings/python/ns__init__.py: libraries are loaded in rounds, each
    round taking every library whose dependencies were all loaded by earlier rounds. */
module DependencyOrder {
  import opened Sequences

  type Lib = string
  type Dependencies = map<Lib, seq<Lib>>

  // The entries of s that are in w, in order.
  ghost function Keep(s: seq<Lib>, w: set<Lib>): seq<Lib> {
    if s == [] then [] else (if s[0] in w then [s[0]] else []) + Keep(s[1..], w)
  }

  lemma {:induction false} KeepMembers(s: seq<Lib>, w: set<Lib>)
    ensures forall x :: x in Keep(s, w) <==> x in s && x in w
  {
    if s != [] {
      KeepMembers(s[1..], w);
    }
  }

  lemma {:induction false} KeepSame(s: seq<Lib>, v: set<Lib>, w: set<Lib>)
    requires forall x :: x in s ==> (x in v <==> x in w)
    ensures Keep(s, v) == Keep(s, w)
  {
    if s != [] {
      assert s[0] in s && forall x :: x in s[1..] ==> x in s;
      KeepSame(s[1..], v, w);
    }
  }

  lemma {:induction false} KeepAll(s: seq<Lib>, w: set<Lib>)
    requires forall x :: x in s ==> x in w
    ensures Keep(s, w) == s
  {
    if s != [] {
      assert s[0] in s;
      KeepAll(s[1..], w);
    }
  }

  lemma {:induction false} KeepKeep(s: seq<Lib>, v: set<Lib>, w: set<Lib>)
    ensures Keep(Keep(s, v), w) == Keep(s, v * w)
  {
    if s != [] {
      KeepKeep(s[1..], v, w);
      if s[0] in v {
        assert Keep(s, v)[1..] == Keep(s[1..], v);
      } else {
        assert Keep(s, v) == Keep(s[1..], v);
      }
    }
  }

  lemma {:induction false} KeepNoDup(s: seq<Lib>, w: set<Lib>)
    requires NoDup(s)
    ensures NoDup(Keep(s, w))
  {
    if s != [] {
      KeepNoDup(s[1..], w);
      KeepMembers(s[1..], w);
      assert s[0] !in s[1..];
    }
  }

  lemma {:induction false} RemoveIsKeep(s: seq<Lib>, x: Lib, w: set<Lib>)
    requires NoDup(s) && forall y :: y in s ==> (y in w <==> y != x)
    ensures Remove(s, x) == Keep(s, w)
  {
    if s != [] {
      assert s[0] in s && forall y :: y in s[1..] ==> y in s;
      assert s[0] !in s[1..];
      if s[0] == x {
        KeepAll(s[1..], w);
      } else {
        RemoveIsKeep(s[1..], x, w);
      }
    }
  }

  // list.remove: the first occurrence.
  function Remove(s: seq<Lib>, x: Lib): seq<Lib> {
    if s == [] then [] else if s[0] == x then s[1..] else [s[0]] + Remove(s[1..], x)
  }

  // ---- chains of dependencies ----

  // Each entry depends on the next; only the last may be a library that is not listed.
  ghost predicate Chain(deps: Dependencies, c: seq<Lib>) {
    |c| > 0 && forall i: nat :: i + 1 < |c| ==> Link(deps, c, i)
  }

  ghost predicate Link(deps: Dependencies, c: seq<Lib>, i: nat)
    requires i + 1 < |c|
  {
    c[i] in deps && c[i + 1] in deps[c[i]]
  }

  // Every chain from m stays within the listed libraries and has at most k links.
  ghost predicate Grounded(deps: Dependencies, m: Lib, k: nat)
    decreases k
  {
    m in deps && forall d :: d in deps[m] ==> k > 0 && Grounded(deps, d, k - 1)
  }

  lemma {:induction false} ChainGrounded(deps: Dependencies, c: seq<Lib>, k: nat)
    requires Chain(deps, c) && Grounded(deps, c[0], k)
    ensures |c| - 1 <= k && Grounded(deps, c[|c| - 1], k - (|c| - 1))
    decreases |c|
  {
    if |c| > 1 {
      assert Link(deps, c, 0);
      var r := c[1..];
      forall i: nat | i + 1 < |r| ensures Link(deps, r, i) {
        assert Link(deps, c, i + 1);
      }
      ChainGrounded(deps, r, k - 1);
    }
  }

  ghost predicate ChainsBounded(deps: Dependencies, m: Lib, k: nat) {
    forall c :: Chain(deps, c) && c[0] == m ==> |c| - 1 <= k && c[|c| - 1] in deps
  }

  lemma ChainCons(deps: Dependencies, m: Lib, c: seq<Lib>)
    requires m in deps && Chain(deps, c) && c[0] in deps[m]
    ensures Chain(deps, [m] + c)
  {
    var r := [m] + c;
    forall i: nat | i + 1 < |r| ensures Link(deps, r, i) {
      if i > 0 {
        assert Link(deps, c, i - 1);
      }
    }
  }

  lemma {:induction false} GroundedIffChains(deps: Dependencies, m: Lib, k: nat)
    ensures Grounded(deps, m, k) <==> ChainsBounded(deps, m, k)
    decreases k
  {
    if Grounded(deps, m, k) {
      forall c | Chain(deps, c) && c[0] == m ensures |c| - 1 <= k && c[|c| - 1] in deps {
        ChainGrounded(deps, c, k);
      }
    }
    if ChainsBounded(deps, m, k) {
      assert Chain(deps, [m]) && [m][0] == m;
      forall d | d in deps[m] ensures k > 0 && Grounded(deps, d, k - 1) {
        ChainCons(deps, m, [d]);
        assert |[m] + [d]| - 1 <= k;
        forall c | Chain(deps, c) && c[0] == d ensures |c| - 1 <= k - 1 && c[|c| - 1] in deps {
          ChainCons(deps, m, c);
          assert ([m] + c)[0] == m;
        }
        GroundedIffChains(deps, d, k - 1);
      }
    }
  }

  // The longest chain from m has j links.
  ghost predicate IsRank(deps: Dependencies, m: Lib, j: nat) {
    Grounded(deps, m, j) && (j > 0 ==> !Grounded(deps, m, j - 1))
  }

  lemma RankIsLongestChain(deps: Dependencies, m: Lib, j: nat)
    ensures IsRank(deps, m, j) <==>
            ChainsBounded(deps, m, j) && exists c :: Chain(deps, c) && c[0] == m && |c| - 1 == j
  {
    GroundedIffChains(deps, m, j);
    if j == 0 {
      assert Chain(deps, [m]) && [m][0] == m && |[m]| - 1 == 0;
    } else {
      GroundedIffChains(deps, m, j - 1);
    }
  }

  lemma {:induction false} GroundedMonotone(deps: Dependencies, m: Lib, k: nat, l: nat)
    requires Grounded(deps, m, k) && k <= l
    ensures Grounded(deps, m, l)
    decreases k
  {
    forall d | d in deps[m] ensures l > 0 && Grounded(deps, d, l - 1) {
      GroundedMonotone(deps, d, k - 1, l - 1);
    }
  }

  // ---- where the rounds are after r of them ----

  ghost predicate LoadedBy(deps: Dependencies, m: Lib, r: nat) {
    r > 0 && Grounded(deps, m, r - 1)
  }

  ghost function NotYet(deps: Dependencies, keys: seq<Lib>, r: nat): set<Lib> {
    set m | m in keys && !LoadedBy(deps, m, r)
  }

  ghost function OfRank(deps: Dependencies, keys: seq<Lib>, j: nat): set<Lib> {
    set m | m in keys && IsRank(deps, m, j)
  }

  ghost function PendingAt(deps: Dependencies, keys: seq<Lib>, r: nat): seq<Lib> {
    Keep(keys, NotYet(deps, keys, r))
  }

  ghost function Level(deps: Dependencies, keys: seq<Lib>, j: nat): seq<Lib> {
    Keep(keys, OfRank(deps, keys, j))
  }

  ghost function LevelsUpTo(deps: Dependencies, keys: seq<Lib>, r: nat): seq<Lib> {
    if r == 0 then [] else LevelsUpTo(deps, keys, r - 1) + Level(deps, keys, r - 1)
  }

  ghost predicate Loadable(deps: Dependencies, current: seq<Lib>, m: Lib) {
    m in deps && forall d :: d in deps[m] ==> d in current
  }

  // What the three mutable arguments hold when r rounds are done.
  ghost predicate AfterRounds(deps: Dependencies, keys: seq<Lib>, pending: seq<Lib>, current: seq<Lib>,
                              steps: map<nat, seq<Lib>>, r: nat) {
    && pending == PendingAt(deps, keys, r)
    && current == LevelsUpTo(deps, keys, r)
    && (forall m :: m in current <==> m in keys && LoadedBy(deps, m, r))
    && (forall j: nat :: j in steps <==> j < r)
    && (forall j: nat :: j < r ==> steps[j] == Level(deps, keys, j))
  }

  ghost predicate KeysOf(deps: Dependencies, keys: seq<Lib>) {
    NoDup(keys) && forall m :: m in keys <==> m in deps
  }

  ghost function LoadableIn(deps: Dependencies, pending: seq<Lib>, current: seq<Lib>): set<Lib> {
    set m | m in pending && Loadable(deps, current, m)
  }

  // The next round takes exactly the libraries of rank r.
  lemma RoundTakesLevel(deps: Dependencies, keys: seq<Lib>, current: seq<Lib>, r: nat)
    requires KeysOf(deps, keys) && forall m :: m in current <==> m in keys && LoadedBy(deps, m, r)
    ensures Keep(PendingAt(deps, keys, r), LoadableIn(deps, PendingAt(deps, keys, r), current)) == Level(deps, keys, r)
  {
    var pending := PendingAt(deps, keys, r);
    var v, w := NotYet(deps, keys, r), LoadableIn(deps, pending, current);
    KeepMembers(keys, v);
    KeepKeep(keys, v, w);
    forall m | m in keys ensures m in v * w <==> m in OfRank(deps, keys, r) {
      LoadableIffGrounded(deps, keys, current, m, r);
    }
    KeepSame(keys, v * w, OfRank(deps, keys, r));
  }

  lemma LoadableIffGrounded(deps: Dependencies, keys: seq<Lib>, current: seq<Lib>, m: Lib, r: nat)
    requires KeysOf(deps, keys) && forall x :: x in current <==> x in keys && LoadedBy(deps, x, r)
    ensures Loadable(deps, current, m) <==> Grounded(deps, m, r)
  {
    if Loadable(deps, current, m) {
      forall d | d in deps[m] ensures r > 0 && Grounded(deps, d, r - 1) {
        assert LoadedBy(deps, d, r);
      }
    }
    if Grounded(deps, m, r) {
      forall d | d in deps[m] ensures d in current {
        assert LoadedBy(deps, d, r) && d in deps;
      }
    }
  }

  lemma RoundLeavesPending(deps: Dependencies, keys: seq<Lib>, r: nat, w: set<Lib>)
    requires KeysOf(deps, keys)
    requires forall m :: m in PendingAt(deps, keys, r) ==> (m in w <==> m !in Level(deps, keys, r))
    ensures Keep(PendingAt(deps, keys, r), w) == PendingAt(deps, keys, r + 1)
  {
    var v := NotYet(deps, keys, r);
    KeepMembers(keys, v);
    KeepMembers(keys, OfRank(deps, keys, r));
    KeepKeep(keys, v, w);
    forall m | m in keys ensures m in v * w <==> m in NotYet(deps, keys, r + 1) {
      if LoadedBy(deps, m, r) {
        GroundedMonotone(deps, m, r - 1, r);
      }
    }
    KeepSame(keys, v * w, NotYet(deps, keys, r + 1));
  }

  lemma {:induction false} KeepSnoc(s: seq<Lib>, x: Lib, w: set<Lib>)
    ensures Keep(s + [x], w) == Keep(s, w) + if x in w then [x] else []
  {
    hide Keep;
    var r := s + [x];
    KeepCons(r, w);
    if s == [] {
      KeepNone(w);
      assert r[1..] == [];
    } else {
      assert r[1..] == s[1..] + [x] && r[0] == s[0];
      KeepCons(s, w);
      KeepSnoc(s[1..], x, w);
    }
  }

  lemma KeepNone(w: set<Lib>)
    ensures Keep([], w) == []
  {
  }

  lemma KeepCons(s: seq<Lib>, w: set<Lib>)
    requires s != []
    ensures Keep(s, w) == (if s[0] in w then [s[0]] else []) + Keep(s[1..], w)
  {
  }

  // What the levels so far contain.
  lemma {:induction false} LevelsMembers(deps: Dependencies, keys: seq<Lib>, r: nat)
    requires KeysOf(deps, keys)
    ensures forall m :: m in LevelsUpTo(deps, keys, r) <==> m in keys && LoadedBy(deps, m, r)
  {
    if r > 0 {
      LevelsMembers(deps, keys, r - 1);
      KeepMembers(keys, OfRank(deps, keys, r - 1));
      forall m | m in keys ensures LoadedBy(deps, m, r) <==> LoadedBy(deps, m, r - 1) || IsRank(deps, m, r - 1) {
        if LoadedBy(deps, m, r - 1) {
          GroundedMonotone(deps, m, r - 2, r - 1);
        }
      }
    }
  }

  // The positions in pending of libraries all of whose dependencies are in current.
  ghost function Ready(deps: Dependencies, pending: seq<Lib>, current: seq<Lib>): set<nat> {
    set i: nat | i < |pending| && pending[i] in deps && forall d :: d in deps[pending[i]] ==> d in current
  }

  // r holds the entries of s at the positions of f.
  ghost predicate Picked(s: seq<Lib>, f: seq<nat>, r: seq<Lib>) {
    |r| == |f| && forall k: nat :: k < |f| ==> f[k] < |s| && r[k] == s[f[k]]
  }

  ghost function Places(s: seq<Lib>, w: set<Lib>): (r: set<nat>)
    ensures forall i :: i in r ==> i < |s|
  {
    set i: nat | i < |s| && s[i] in w
  }

  // Keep picks out the entries that are in w, in order.
  lemma {:induction false} KeepPicks(s: seq<Lib>, w: set<Lib>) returns (f: seq<nat>)
    ensures Chosen(f, Places(s, w)) && Picked(s, f, Keep(s, w))
  {
    f := [];
    if s == [] {
      KeepNone(w);
    } else {
      hide Chosen, Places, Keep;
      var n := |s| - 1;
      var p, x := s[..n], s[n];
      f := KeepPicks(p, w);
      assert s == p + [x];
      KeepSnoc(p, x, w);
      PlacesSnoc(p, x, w);
      PickedSnoc(p, x, f, Keep(p, w));
      if x in w {
        ChosenSnoc(f, Places(p, w), n);
        f := f + [n];
      } else {
        assert Places(p, w) + {} == Places(p, w) && Keep(p, w) + [] == Keep(p, w);
      }
    }
  }

  lemma PlacesSnoc(s: seq<Lib>, x: Lib, w: set<Lib>)
    ensures Places(s + [x], w) == Places(s, w) + if x in w then {|s|} else {}
  {
  }

  lemma PickedSnoc(s: seq<Lib>, x: Lib, f: seq<nat>, r: seq<Lib>)
    requires Picked(s, f, r)
    ensures Picked(s + [x], f, r) && Picked(s + [x], f + [|s|], r + [x])
  {
  }

  method ModulesThatCanBeLoaded(deps: Dependencies, pending: seq<Lib>, current: seq<Lib>) returns (modules: seq<Lib>)
    requires forall m :: m in pending ==> m in deps
    ensures modules == Keep(pending, LoadableIn(deps, pending, current))
    ensures exists f :: Chosen(f, Ready(deps, pending, current)) && Picked(pending, f, modules)
  {
    ghost var w := LoadableIn(deps, pending, current);
    modules := [];
    for i := 0 to |pending|
      invariant modules == Keep(pending[..i], w)
    {
      var library := pending[i];
      var canBeLoaded := true;
      for k := 0 to |deps[library]|
        invariant canBeLoaded
        invariant forall j :: 0 <= j < k ==> deps[library][j] in current
      {
        if deps[library][k] !in current {
          canBeLoaded := false;
          break;
        }
      }
      assert canBeLoaded <==> Loadable(deps, current, library);
      assert pending[..i + 1] == pending[..i] + [library];
      KeepSnoc(pending[..i], library, w);
      if canBeLoaded {
        modules := modules + [library];
      }
    }
    assert pending[..|pending|] == pending;
    ghost var f := KeepPicks(pending, w);
    assert Ready(deps, pending, current) == Places(pending, w);
  }

  // The lists and the dictionary that dependency_order updates in place.
  class Loader {
    var pendingModules: seq<Lib>
    var currentModules: seq<Lib>
    var steps: map<nat, seq<Lib>>

    constructor (pending: seq<Lib>)
      ensures pendingModules == pending && currentModules == [] && steps == map[]
    {
      pendingModules, currentModules, steps := pending, [], map[];
    }

    // limit is how many further calls the interpreter's recursion limit allows; without one the
    // recursion on a cyclic or incomplete map would never end. r counts the rounds done.
    method DependencyOrder(deps: Dependencies, ghost keys: seq<Lib>, stepNumber: nat, limit: nat)
      returns (ok: bool, ghost r: nat)
      requires KeysOf(deps, keys) && AfterRounds(deps, keys, pendingModules, currentModules, steps, stepNumber)
      modifies this
      ensures stepNumber <= r <= stepNumber + limit
      ensures AfterRounds(deps, keys, pendingModules, currentModules, steps, r)
      ensures ok <==> pendingModules == []
      ensures !ok ==> r == stepNumber + limit
      ensures r > stepNumber ==> PendingAt(deps, keys, r - 1) != []
      decreases limit
    {
      hide AfterRounds;
      r := stepNumber;
      assert pendingModules == PendingAt(deps, keys, stepNumber) by {
        AfterFacts(deps, keys, pendingModules, currentModules, steps, r);
      }
      if |pendingModules| == 0 {
        return true, r;
      }
      if limit == 0 {
        return false, r;
      }
      LoadRound(deps, keys, stepNumber);
      ok, r := DependencyOrder(deps, keys, stepNumber + 1, limit - 1);
    }

    // One round: the loadable libraries move from pending to current and into their step.
    method LoadRound(deps: Dependencies, ghost keys: seq<Lib>, stepNumber: nat)
      requires KeysOf(deps, keys) && AfterRounds(deps, keys, pendingModules, currentModules, steps, stepNumber)
      modifies this
      ensures AfterRounds(deps, keys, pendingModules, currentModules, steps, stepNumber + 1)
    {
      hide IsRank, LoadedBy, Keep, LoadableIn, Without, Grounded, Loadable;
      ghost var pending, current, before := pendingModules, currentModules, steps;
      KeepMembers(keys, NotYet(deps, keys, stepNumber));
      if stepNumber !in steps {
        steps := steps[stepNumber := []];
      }
      var modules := ModulesThatCanBeLoaded(deps, pendingModules, currentModules);
      RoundFacts(deps, keys, current, stepNumber, modules);
      NoneTaken(pending);
      for i := 0 to |modules|
        invariant steps == before[stepNumber := modules[..i]]
        invariant pendingModules == Keep(pending, Without(pending, modules[..i]))
        invariant currentModules == current + modules[..i]
      {
        var library := modules[i];
        assert modules[..i + 1] == modules[..i] + [library];
        RemoveNext(pending, modules, i);
        steps := steps[stepNumber := steps[stepNumber] + [library]];
        pendingModules := Remove(pendingModules, library);
        currentModules := currentModules + [library];
      }
      assert modules[..|modules|] == modules;
      RestPending(deps, keys, stepNumber);
      LevelsMembers(deps, keys, stepNumber + 1);
    }
  }

  lemma RoundFacts(deps: Dependencies, keys: seq<Lib>, current: seq<Lib>, r: nat, modules: seq<Lib>)
    requires KeysOf(deps, keys) && forall m :: m in current <==> m in keys && LoadedBy(deps, m, r)
    requires modules == Keep(PendingAt(deps, keys, r), LoadableIn(deps, PendingAt(deps, keys, r), current))
    ensures modules == Level(deps, keys, r) && NoDup(modules) && NoDup(PendingAt(deps, keys, r))
    ensures forall m :: m in modules ==> m in PendingAt(deps, keys, r)
  {
    hide Keep, LoadedBy, Loadable, IsRank;
    RoundTakesLevel(deps, keys, current, r);
    KeepNoDup(keys, NotYet(deps, keys, r));
    KeepNoDup(keys, OfRank(deps, keys, r));
    KeepMembers(PendingAt(deps, keys, r), LoadableIn(deps, PendingAt(deps, keys, r), current));
  }

  lemma NoneTaken(pending: seq<Lib>)
    ensures Keep(pending, Without(pending, [])) == pending
  {
    KeepAll(pending, Without(pending, []));
  }

  lemma RestPending(deps: Dependencies, keys: seq<Lib>, r: nat)
    requires KeysOf(deps, keys)
    ensures Keep(PendingAt(deps, keys, r), Without(PendingAt(deps, keys, r), Level(deps, keys, r))) ==
            PendingAt(deps, keys, r + 1)
  {
    hide Keep;
    RoundLeavesPending(deps, keys, r, Without(PendingAt(deps, keys, r), Level(deps, keys, r)));
  }

  ghost function Without(pending: seq<Lib>, modules: seq<Lib>): set<Lib> {
    set m | m in pending && m !in modules
  }

  lemma RemoveNext(pending: seq<Lib>, modules: seq<Lib>, i: nat)
    requires NoDup(pending) && NoDup(modules) && i < |modules| && forall m :: m in modules ==> m in pending
    ensures Remove(Keep(pending, Without(pending, modules[..i])), modules[i]) ==
            Keep(pending, Without(pending, modules[..i + 1]))
  {
    var v, w := Without(pending, modules[..i]), Without(pending, modules[..i + 1]);
    assert modules[..i + 1] == modules[..i] + [modules[i]];
    KeepNoDup(pending, v);
    KeepMembers(pending, v);
    RemoveIsKeep(Keep(pending, v), modules[i], w);
    KeepKeep(pending, v, w);
    assert v * w == w;
  }

  lemma AfterFacts(deps: Dependencies, keys: seq<Lib>, pending: seq<Lib>, current: seq<Lib>,
                   steps: map<nat, seq<Lib>>, r: nat)
    requires AfterRounds(deps, keys, pending, current, steps, r)
    ensures pending == PendingAt(deps, keys, r) && current == LevelsUpTo(deps, keys, r)
    ensures forall j: nat :: j in steps <==> j < r
    ensures forall j: nat :: j < r ==> steps[j] == Level(deps, keys, j)
  {
  }

  // ---- the whole sort ----

  datatype Outcome = Sorted(libraries: seq<Lib>) | RecursionError

  // keys is the order of module_dependencies.keys().
  method SortToDependencies(deps: Dependencies, keys: seq<Lib>, limit: nat) returns (result: Outcome)
    requires KeysOf(deps, keys)
    ensures result.Sorted? <==> PendingAt(deps, keys, limit) == []
    ensures result.Sorted? ==> InOrder(deps, keys, result.libraries) && InRounds(deps, keys, result.libraries)
  {
    hide Keep, KeysOf, InOrder, LoadedBy, IsRank, Level, AfterRounds;
    var loader := new Loader(keys);
    NoRounds(deps, keys);
    var ok; ghost var r;
    ok, r := loader.DependencyOrder(deps, keys, 0, limit);
    AfterFacts(deps, keys, loader.pendingModules, loader.currentModules, loader.steps, r);
    if !ok {
      return RecursionError;
    }
    PendingShrinks(deps, keys, r, limit);
    var libraries: seq<Lib> := [];
    var n := |loader.steps|;
    DomainSize(loader.steps, r);
    for j := 0 to n
      invariant libraries == LevelsUpTo(deps, keys, j)
    {
      libraries := libraries + loader.steps[j];
    }
    LevelsInOrder(deps, keys, r);
    LevelsInRounds(deps, keys, r);
    return Sorted(libraries);
  }

  // m comes in an earlier round than l, or in the same round and earlier in keys.
  ghost predicate Earlier(deps: Dependencies, keys: seq<Lib>, m: Lib, l: Lib) {
    exists i: nat, j: nat ::
      && IsRank(deps, m, i) && IsRank(deps, l, j)
      && (i < j || (i == j && exists p, q :: 0 <= p < q < |keys| && keys[p] == m && keys[q] == l))
  }

  ghost predicate InRounds(deps: Dependencies, keys: seq<Lib>, libraries: seq<Lib>) {
    forall k, l :: 0 <= k < l < |libraries| ==> Earlier(deps, keys, libraries[k], libraries[l])
  }

  lemma {:induction false} LevelsInRounds(deps: Dependencies, keys: seq<Lib>, r: nat)
    ensures InRounds(deps, keys, LevelsUpTo(deps, keys, r))
    ensures forall m :: m in LevelsUpTo(deps, keys, r) ==> exists i: nat :: i < r && IsRank(deps, m, i)
  {
    hide IsRank, Keep, Earlier;
    if r > 0 {
      var a, b := LevelsUpTo(deps, keys, r - 1), Level(deps, keys, r - 1);
      LevelsInRounds(deps, keys, r - 1);
      KeepMembers(keys, OfRank(deps, keys, r - 1));
      LevelInRounds(deps, keys, r - 1);
      forall k, l | 0 <= k < |a| && 0 <= l < |b| ensures Earlier(deps, keys, a[k], b[l]) {
        assert a[k] in a && b[l] in b;
        var i: nat :| i < r - 1 && IsRank(deps, a[k], i);
        EarlierRound(deps, keys, a[k], b[l], i, r - 1);
      }
    }
  }

  lemma EarlierRound(deps: Dependencies, keys: seq<Lib>, m: Lib, l: Lib, i: nat, j: nat)
    requires IsRank(deps, m, i) && IsRank(deps, l, j) && i < j
    ensures Earlier(deps, keys, m, l)
  {
  }

  lemma LevelInRounds(deps: Dependencies, keys: seq<Lib>, j: nat)
    ensures InRounds(deps, keys, Level(deps, keys, j))
  {
    hide IsRank, Keep;
    var w, b := OfRank(deps, keys, j), Level(deps, keys, j);
    var f := KeepPicks(keys, w);
    forall k, l | 0 <= k < l < |b| ensures Earlier(deps, keys, b[k], b[l]) {
      assert f[k] < f[l] && b[k] == keys[f[k]] && b[l] == keys[f[l]];
      assert f[k] in f && f[l] in f;
      assert IsRank(deps, b[k], j) && IsRank(deps, b[l], j);
    }
  }

  lemma NoRounds(deps: Dependencies, keys: seq<Lib>)
    requires KeysOf(deps, keys)
    ensures AfterRounds(deps, keys, keys, [], map[], 0)
  {
    KeepAll(keys, NotYet(deps, keys, 0));
  }

  lemma DomainSize(m: map<nat, seq<Lib>>, r: nat)
    requires forall j: nat :: j in m <==> j < r
    ensures |m| == r
  {
    RangeSize(r);
    assert m.Keys == Range(r);
  }

  ghost function Range(r: nat): set<nat> {
    if r == 0 then {} else Range(r - 1) + {r - 1}
  }

  lemma {:induction false} RangeSize(r: nat)
    ensures |Range(r)| == r && forall j: nat :: j in Range(r) <==> j < r
  {
    if r > 0 {
      RangeSize(r - 1);
    }
  }

  // Every listed library exactly once, each after all of its dependencies.
  ghost predicate InOrder(deps: Dependencies, keys: seq<Lib>, sorted: seq<Lib>) {
    multiset(sorted) == multiset(keys) && AllBefore(deps, sorted)
  }

  ghost predicate AllBefore(deps: Dependencies, sorted: seq<Lib>) {
    forall i: nat :: i < |sorted| ==> DependenciesBefore(deps, sorted, i)
  }

  ghost predicate DependenciesBefore(deps: Dependencies, sorted: seq<Lib>, i: nat)
    requires i < |sorted|
  {
    sorted[i] in deps && forall d :: d in deps[sorted[i]] ==> d in sorted[..i]
  }

  lemma PendingShrinks(deps: Dependencies, keys: seq<Lib>, r: nat, l: nat)
    requires r <= l && PendingAt(deps, keys, r) == []
    ensures PendingAt(deps, keys, l) == []
  {
    KeepMembers(keys, NotYet(deps, keys, r));
    KeepMembers(keys, NotYet(deps, keys, l));
    if PendingAt(deps, keys, l) != [] {
      var m := PendingAt(deps, keys, l)[0];
      assert m in PendingAt(deps, keys, l) && LoadedBy(deps, m, r);
      GroundedMonotone(deps, m, r - 1, l - 1);
    }
  }

  lemma {:induction false} LevelsNoDup(deps: Dependencies, keys: seq<Lib>, r: nat)
    requires KeysOf(deps, keys)
    ensures NoDup(LevelsUpTo(deps, keys, r))
  {
    if r > 0 {
      LevelsNoDup(deps, keys, r - 1);
      KeepNoDup(keys, OfRank(deps, keys, r - 1));
      KeepMembers(keys, OfRank(deps, keys, r - 1));
      LevelsMembers(deps, keys, r - 1);
      var a, b := LevelsUpTo(deps, keys, r - 1), Level(deps, keys, r - 1);
      forall i, j | 0 <= i < |a| && 0 <= j < |b| ensures a[i] != b[j] {
        assert a[i] in a && b[j] in b;
      }
    }
  }

  lemma {:induction false} LevelsBefore(deps: Dependencies, keys: seq<Lib>, r: nat)
    requires KeysOf(deps, keys)
    ensures AllBefore(deps, LevelsUpTo(deps, keys, r))
  {
    if r > 0 {
      var a, b := LevelsUpTo(deps, keys, r - 1), Level(deps, keys, r - 1);
      LevelsBefore(deps, keys, r - 1);
      assert AllBefore(deps, a);
      forall i: nat | i < |a| ensures DependenciesBefore(deps, a + b, i) {
        assert DependenciesBefore(deps, a, i) && (a + b)[..i] == a[..i];
      }
      LevelBefore(deps, keys, r, a, b);
    }
  }

  // The dependencies of a library of rank r - 1 are all in the earlier levels.
  lemma LevelBefore(deps: Dependencies, keys: seq<Lib>, r: nat, a: seq<Lib>, b: seq<Lib>)
    requires KeysOf(deps, keys) && r > 0 && a == LevelsUpTo(deps, keys, r - 1) && b == Level(deps, keys, r - 1)
    ensures forall i: nat :: |a| <= i < |a + b| ==> DependenciesBefore(deps, a + b, i)
  {
    hide Keep, LevelsUpTo, Grounded, NoDup;
    LevelsMembers(deps, keys, r - 1);
    KeepMembers(keys, OfRank(deps, keys, r - 1));
    forall i: nat | |a| <= i < |a + b| ensures DependenciesBefore(deps, a + b, i) {
      var m := b[i - |a|];
      assert m in b && (a + b)[i] == m && a <= (a + b)[..i];
      forall d | d in deps[m] ensures d in (a + b)[..i] {
        GroundedStep(deps, m, d, r - 1);
        assert LoadedBy(deps, d, r - 1) && d in a;
      }
    }
  }

  lemma GroundedStep(deps: Dependencies, m: Lib, d: Lib, k: nat)
    requires Grounded(deps, m, k) && d in deps[m]
    ensures k > 0 && Grounded(deps, d, k - 1) && d in deps
  {
  }

  lemma LevelsInOrder(deps: Dependencies, keys: seq<Lib>, r: nat)
    requires KeysOf(deps, keys) && PendingAt(deps, keys, r) == []
    ensures InOrder(deps, keys, LevelsUpTo(deps, keys, r))
  {
    LevelsNoDup(deps, keys, r);
    LevelsBefore(deps, keys, r);
    LevelsMembers(deps, keys, r);
    KeepMembers(keys, NotYet(deps, keys, r));
    NoDupSameMultiset(LevelsUpTo(deps, keys, r), keys);
  }

  // ---- when the recursion ends ----

  // No chain leaves the listed libraries or comes back to a library it has passed.
  ghost predicate ClosedAndAcyclic(deps: Dependencies) {
    forall c :: Chain(deps, c) && c[0] in deps ==> c[|c| - 1] in deps && NoDup(c)
  }

  // The recursion ends, within one round per library, exactly when no library depends, directly
  // or through others, on a missing one or on a cycle; otherwise no number of rounds is enough.
  lemma FinishesIff(deps: Dependencies, keys: seq<Lib>)
    requires KeysOf(deps, keys)
    ensures ClosedAndAcyclic(deps) <==> PendingAt(deps, keys, |keys|) == []
    ensures ClosedAndAcyclic(deps) <==> exists r: nat :: PendingAt(deps, keys, r) == []
  {
    if ClosedAndAcyclic(deps) {
      AcyclicFinishes(deps, keys);
    }
    if r: nat :| PendingAt(deps, keys, r) == [] {
      FinishedIsAcyclic(deps, keys, r);
    }
  }

  // Two libraries that depend on each other: no number of rounds loads them.
  lemma CycleExample()
    ensures var deps: Dependencies := map["a" := ["b"], "b" := ["a"]];
            KeysOf(deps, ["a", "b"]) && forall r: nat :: PendingAt(deps, ["a", "b"], r) != []
  {
    var deps: Dependencies := map["a" := ["b"], "b" := ["a"]];
    var c: seq<Lib> := ["a", "b", "a"];
    assert Link(deps, c, 0) && Link(deps, c, 1);
    assert Chain(deps, c) && c[0] in deps && c[0] == c[2] && !NoDup(c);
    FinishesIff(deps, ["a", "b"]);
  }

  // A library that depends on one that is not listed.
  lemma MissingExample()
    ensures var deps: Dependencies := map["a" := ["b"]];
            KeysOf(deps, ["a"]) && forall r: nat :: PendingAt(deps, ["a"], r) != []
  {
    var deps: Dependencies := map["a" := ["b"]];
    var c: seq<Lib> := ["a", "b"];
    assert Link(deps, c, 0);
    assert Chain(deps, c) && c[0] in deps && c[|c| - 1] !in deps;
    FinishesIff(deps, ["a"]);
  }

  lemma AcyclicFinishes(deps: Dependencies, keys: seq<Lib>)
    requires KeysOf(deps, keys) && ClosedAndAcyclic(deps)
    ensures PendingAt(deps, keys, |keys|) == []
  {
    forall m | m in keys ensures LoadedBy(deps, m, |keys|) {
      forall c | Chain(deps, c) && c[0] == m ensures |c| - 1 <= |keys| - 1 && c[|c| - 1] in deps {
        ChainMembers(deps, c);
        DistinctBound(c, keys);
      }
      assert m in deps;
      GroundedIffChains(deps, m, |keys| - 1);
    }
    KeepMembers(keys, NotYet(deps, keys, |keys|));
    if PendingAt(deps, keys, |keys|) != [] {
      SomeMember(PendingAt(deps, keys, |keys|));
    }
  }

  lemma SomeMember(s: seq<Lib>)
    requires s != []
    ensures exists x :: x in s
  {
    assert s[0] in s;
  }

  lemma ChainMembers(deps: Dependencies, c: seq<Lib>)
    requires Chain(deps, c) && c[|c| - 1] in deps
    ensures forall i :: 0 <= i < |c| ==> c[i] in deps
  {
    forall i | 0 <= i < |c| ensures c[i] in deps {
      if i + 1 < |c| {
        assert Link(deps, c, i);
      }
    }
  }

  // Distinct entries taken from a list are no more than the list's.
  lemma {:induction false} DistinctBound(c: seq<Lib>, keys: seq<Lib>)
    requires NoDup(c) && forall i :: 0 <= i < |c| ==> c[i] in keys
    ensures |c| <= |keys|
    decreases |c|
  {
    if c != [] {
      var x := c[0];
      var k :| 0 <= k < |keys| && keys[k] == x;
      var rest := keys[..k] + keys[k + 1..];
      forall i | 0 <= i < |c[1..]| ensures c[1..][i] in rest {
        var j :| 0 <= j < |keys| && keys[j] == c[i + 1];
        assert c[0] != c[i + 1];
        assert rest[if j < k then j else j - 1] == c[i + 1];
      }
      DistinctBound(c[1..], rest);
    }
  }

  lemma FinishedIsAcyclic(deps: Dependencies, keys: seq<Lib>, r: nat)
    requires KeysOf(deps, keys) && PendingAt(deps, keys, r) == []
    ensures ClosedAndAcyclic(deps)
  {
    KeepMembers(keys, NotYet(deps, keys, r));
    forall c | Chain(deps, c) && c[0] in deps ensures c[|c| - 1] in deps && NoDup(c) {
      assert c[0] in keys && c[0] !in PendingAt(deps, keys, r);
      ChainGrounded(deps, c, r - 1);
      forall i, j | 0 <= i < j < |c| ensures c[i] != c[j] {
        if c[i] == c[j] {
          ChainSlice(deps, c, 0, i);
          ChainGrounded(deps, c[..i + 1], r - 1);
          ChainSlice(deps, c, i, j);
          NoCycle(deps, c[i..j + 1], r - 1 - i);
        }
      }
    }
  }

  lemma ChainSlice(deps: Dependencies, c: seq<Lib>, i: nat, j: nat)
    requires Chain(deps, c) && i <= j < |c|
    ensures Chain(deps, c[i..j + 1])
  {
    var r := c[i..j + 1];
    forall k: nat | k + 1 < |r| ensures Link(deps, r, k) {
      assert Link(deps, c, i + k);
    }
  }

  // Nothing on a cycle is ever grounded.
  lemma {:induction false} NoCycle(deps: Dependencies, c: seq<Lib>, k: nat)
    requires Chain(deps, c) && |c| > 1 && c[0] == c[|c| - 1]
    ensures !Grounded(deps, c[0], k)
    decreases k
  {
    if Grounded(deps, c[0], k) {
      ChainGrounded(deps, c, k);
      NoCycle(deps, c, k - (|c| - 1));
    }
  }

  // ---- a round that loads nothing ----

  // A round loads nothing exactly when each pending library has a dependency not loaded yet.
  lemma StallsIff(deps: Dependencies, pending: seq<Lib>, current: seq<Lib>)
    requires forall m :: m in pending ==> m in deps
    ensures Keep(pending, LoadableIn(deps, pending, current)) == [] <==>
            forall m :: m in pending ==> exists d :: d in deps[m] && d !in current
  {
    var w := LoadableIn(deps, pending, current);
    KeepMembers(pending, w);
    var k := Keep(pending, w);
    if k != [] {
      assert k[0] in k && Loadable(deps, current, k[0]);
    }
    forall m | m in pending ensures Loadable(deps, current, m) <==> !exists d :: d in deps[m] && d !in current {
    }
    if !forall m :: m in pending ==> exists d :: d in deps[m] && d !in current {
      var m :| m in pending && !exists d :: d in deps[m] && d !in current;
      assert m in w && m in k;
    }
  }

  // After a round that loads nothing no later round loads anything.
  lemma {:induction false} StalledForever(deps: Dependencies, keys: seq<Lib>, r: nat, l: nat)
    requires KeysOf(deps, keys) && Level(deps, keys, r) == [] && r <= l
    ensures Level(deps, keys, l) == [] && PendingAt(deps, keys, l) == PendingAt(deps, keys, r)
  {
    if l > r {
      StalledForever(deps, keys, r, l - 1);
      KeepMembers(keys, NotYet(deps, keys, l - 1));
      RoundLeavesPending(deps, keys, l - 1, NotYet(deps, keys, l - 1));
      KeepAll(PendingAt(deps, keys, l - 1), NotYet(deps, keys, l - 1));
      if Level(deps, keys, l) != [] {
        var m := Level(deps, keys, l)[0];
        KeepMembers(keys, OfRank(deps, keys, l));
        assert m in Level(deps, keys, l) && IsRank(deps, m, l);
        RankBelow(deps, keys, m, l);
      }
    }
  }

  // A library whose longest chain has l links leads to one whose longest chain has l - 1.
  lemma RankBelow(deps: Dependencies, keys: seq<Lib>, m: Lib, l: nat)
    requires KeysOf(deps, keys) && l > 0 && IsRank(deps, m, l)
    ensures Level(deps, keys, l - 1) != []
  {
    var d :| d in deps[m] && !(l - 1 > 0 && Grounded(deps, d, l - 2));
    assert Grounded(deps, d, l - 1) && IsRank(deps, d, l - 1);
    KeepMembers(keys, OfRank(deps, keys, l - 1));
    assert d in keys;
  }

  // On a closed map a stalled round means a cycle among the pending libraries.
  lemma StallMeansCycle(deps: Dependencies, keys: seq<Lib>, r: nat)
    requires KeysOf(deps, keys) && PendingAt(deps, keys, r) != [] && Level(deps, keys, r) == []
    requires forall m, d :: m in deps && d in deps[m] ==> d in deps
    ensures exists c :: Chain(deps, c) && |c| > 1 && c[0] == c[|c| - 1]
                        && forall i :: 0 <= i < |c| ==> c[i] in PendingAt(deps, keys, r)
  {
    var pending := PendingAt(deps, keys, r);
    StalledDependsOnPending(deps, keys, r);
    hide *;
    var c := PendingChain(deps, pending, |pending|);
    CycleFromChain(deps, c, pending);
  }

  lemma CycleFromChain(deps: Dependencies, c: seq<Lib>, pending: seq<Lib>)
    requires Chain(deps, c) && |c| > |pending| && forall i :: 0 <= i < |c| ==> c[i] in pending
    ensures exists b :: Chain(deps, b) && |b| > 1 && b[0] == b[|b| - 1] && forall i :: 0 <= i < |b| ==> b[i] in pending
  {
    hide Chain;
    var i, j := RepeatIn(c, pending);
    var b := c[i..j + 1];
    ChainSlice(deps, c, i, j);
    forall k | 0 <= k < |b| ensures b[k] in pending {
      assert b[k] == c[i + k];
    }
    assert b[0] == b[|b| - 1];
  }

  lemma RepeatIn(c: seq<Lib>, pending: seq<Lib>) returns (i: nat, j: nat)
    requires |c| > |pending| && forall k :: 0 <= k < |c| ==> c[k] in pending
    ensures i < j < |c| && c[i] == c[j]
  {
    if NoDup(c) {
      DistinctBound(c, pending);
    }
    i, j :| i < j < |c| && c[i] == c[j];
  }

  ghost predicate DependsOn(deps: Dependencies, m: Lib, s: seq<Lib>) {
    m in deps && exists d :: d in deps[m] && d in s
  }

  lemma StalledDependsOnPending(deps: Dependencies, keys: seq<Lib>, r: nat)
    requires KeysOf(deps, keys) && Level(deps, keys, r) == []
    requires forall m, d :: m in deps && d in deps[m] ==> d in deps
    ensures forall m :: m in PendingAt(deps, keys, r) ==> DependsOn(deps, m, PendingAt(deps, keys, r))
  {
    var pending := PendingAt(deps, keys, r);
    KeepMembers(keys, NotYet(deps, keys, r));
    KeepMembers(keys, OfRank(deps, keys, r));
    forall m | m in pending ensures DependsOn(deps, m, pending) {
      assert m !in Level(deps, keys, r) && !Grounded(deps, m, r);
      var d :| d in deps[m] && !(r > 0 && Grounded(deps, d, r - 1));
      assert d in deps && d in keys && !LoadedBy(deps, d, r);
    }
  }

  lemma {:induction false} PendingChain(deps: Dependencies, pending: seq<Lib>, n: nat) returns (c: seq<Lib>)
    requires pending != [] && forall m :: m in pending ==> DependsOn(deps, m, pending)
    ensures Chain(deps, c) && |c| == n + 1 && forall i :: 0 <= i < |c| ==> c[i] in pending
  {
    if n == 0 {
      c := [pending[0]];
    } else {
      var b := PendingChain(deps, pending, n - 1);
      var last := b[|b| - 1];
      assert DependsOn(deps, last, pending);
      var d :| d in deps[last] && d in pending;
      ChainSnoc(deps, b, d);
      c := b + [d];
    }
  }

  lemma ChainSnoc(deps: Dependencies, b: seq<Lib>, d: Lib)
    requires Chain(deps, b) && b[|b| - 1] in deps && d in deps[b[|b| - 1]]
    ensures Chain(deps, b + [d])
  {
    var c := b + [d];
    forall i: nat | i + 1 < |c| ensures Link(deps, c, i) {
      if i + 1 < |b| {
        assert Link(deps, b, i);
      }
    }
  }
}

/** Sequences without repetitions, selections in order, and reversal. */
module Sequences {
  ghost predicate NoDup<T>(s: seq<T>) {
    forall i, j :: 0 <= i < j < |s| ==> s[i] != s[j]
  }

  // f lists the numbers of w in increasing order, each once.
  ghost predicate Chosen(f: seq<nat>, w: set<nat>) {
    && (forall k, l :: 0 <= k < l < |f| ==> f[k] < f[l])
    && (forall i: nat :: i in f <==> i in w)
  }

  lemma ChosenSnoc(f: seq<nat>, w: set<nat>, n: nat)
    requires Chosen(f, w) && forall i :: i in w ==> i < n
    ensures Chosen(f + [n], w + {n})
  {
    forall k | 0 <= k < |f| ensures f[k] < n {
      assert f[k] in f;
    }
  }

  // Duplicate-free lists of numbers below n have at most n entries.
  lemma {:induction false} NoDupBound(s: seq<nat>, n: nat)
    requires NoDup(s) && forall x :: x in s ==> x < n
    ensures |s| <= n
  {
    if n > 0 && exists i :: 0 <= i < |s| && s[i] == n - 1 {
      var i :| 0 <= i < |s| && s[i] == n - 1;
      var t := s[..i] + s[i + 1..];
      assert forall k :: 0 <= k < |t| ==> t[k] == s[if k < i then k else k + 1];
      forall x | x in t ensures x < n - 1 {
        var k :| 0 <= k < |t| && t[k] == x;
        var j := if k < i then k else k + 1;
        assert s[j] == x && s[j] in s && s[j] != s[i];
      }
      NoDupBound(t, n - 1);
    } else if |s| > 0 {
      assert s[0] in s;
      NoDupBound(s, n - 1);
    }
  }

  lemma NoDupSameMultiset<T>(s: seq<T>, t: seq<T>)
    requires NoDup(s) && NoDup(t) && forall x :: x in s <==> x in t
    ensures multiset(s) == multiset(t)
  {
    forall x ensures multiset(s)[x] == multiset(t)[x] {
      NoDupCount(s, x);
      NoDupCount(t, x);
    }
  }

  lemma {:induction false} NoDupCount<T>(s: seq<T>, x: T)
    requires NoDup(s)
    ensures multiset(s)[x] == if x in s then 1 else 0
  {
    if s != [] {
      var k := |s| - 1;
      assert s == s[..k] + [s[k]];
      NoDupCount(s[..k], x);
    }
  }

  function Reverse<T>(p: seq<T>): (r: seq<T>)
    ensures |r| == |p|
    ensures forall i :: 0 <= i < |p| ==> r[i] == p[|p| - 1 - i]
  {
    if p == [] then [] else Reverse(p[1..]) + [p[0]]
  }
}

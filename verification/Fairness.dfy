/** Jain's fairness index as PrintFairness of examples/tcp/dctcp-example.cc computes it. */
module Fairness {
  import opened Words

  ghost function Sum(xs: seq<nat>): nat {
    if xs == [] then 0 else Sum(xs[..|xs| - 1]) + xs[|xs| - 1]
  }

  ghost function SumSquares(xs: seq<nat>): nat {
    if xs == [] then 0 else SumSquares(xs[..|xs| - 1]) + xs[|xs| - 1] * xs[|xs| - 1]
  }

  ghost predicate AllEqual(xs: seq<nat>) { forall i, j :: 0 <= i < |xs| && 0 <= j < |xs| ==> xs[i] == xs[j] }

  ghost predicate Fits(xs: seq<nat>) { forall i :: 0 <= i < |xs| ==> xs[i] * |xs| < 0x1_0000_0000 }

  // The average rate in Mbps and the index of a group of flows; None for a division of zero by zero
  // or of a positive number by zero.
  datatype Report = Report(average: real, index: Option<real>)
  datatype Option<T> = None | Some(value: T)

  function Mbps(bytesPerFlow: U64, window: real): real
    requires window > 0.0
  {
    Wrap64(bytesPerFlow * 8) as real / window / 1000000.0
  }

  function Quotient(numerator: U64, denominator: U64): Option<real> {
    if denominator == 0 then None else Some(numerator as real / denominator as real)
  }

  // What is reported of counters xs, in 64-bit arithmetic.
  ghost function ReportOf(xs: seq<nat>, window: real): Report
    requires xs != [] && window > 0.0
  {
    Report(Mbps(Wrap64(Sum(xs)) / |xs|, window), Quotient(Wrap64(Sum(xs) * Sum(xs)), Wrap64(|xs| * SumSquares(xs))))
  }

  // sum and sumSquares after the first i counters.
  ghost predicate SummedUp(xs: seq<nat>, i: nat, sum: U64, sumSquares: U64)
    requires i <= |xs|
  {
    sum == Wrap64(Sum(xs[..i])) && sumSquares == Wrap64(SumSquares(xs[..i]))
  }

  lemma SummedNone(xs: seq<nat>)
    ensures SummedUp(xs, 0, 0, 0)
  {
    SumsNone(xs);
  }

  lemma SummedOne(xs: seq<nat>, i: nat, sum: U64, sumSquares: U64)
    requires i < |xs| && SummedUp(xs, i, sum, sumSquares)
    ensures SummedUp(xs, i + 1, Wrap64(sum + xs[i]), Wrap64(sumSquares + Wrap64(xs[i] * xs[i])))
  {
    hide Wrap64, Sum, SumSquares;
    SumsStep(xs, i);
    WrapSums(Sum(xs[..i]), xs[i]);
    WrapSums(SumSquares(xs[..i]), xs[i] * xs[i]);
  }

  lemma SummedAll(xs: seq<nat>, sum: U64, sumSquares: U64, window: real)
    requires xs != [] && window > 0.0 && SummedUp(xs, |xs|, sum, sumSquares)
    ensures sum / |xs| < U64_SIZE
    ensures ReportOf(xs, window) ==
            Report(Mbps(sum / |xs|, window), Quotient(Wrap64(sum * sum), Wrap64(|xs| * sumSquares)))
  {
    hide Wrap64, Sum, SumSquares, Mbps, Quotient;
    assert xs[..|xs|] == xs;
    WrapSquare(Sum(xs));
    WrapProduct(SumSquares(xs), |xs|);
  }

  // The loop over a group and the two divisions.
  method GroupReport(bytes: array<U64>, window: real) returns (r: Report)
    requires bytes.Length > 0 && window > 0.0
    ensures r == ReportOf(bytes[..], window)
  {
    hide Wrap64, SummedUp, ReportOf, Mbps, Quotient;
    ghost var xs: seq<nat> := bytes[..];
    var sum: U64, sumSquares: U64 := 0, 0;
    SummedNone(xs);
    for i := 0 to bytes.Length
      invariant SummedUp(xs, i, sum, sumSquares)
    {
      SummedOne(xs, i, sum, sumSquares);
      var b: nat := bytes[i];
      sum := Wrap64(sum + b);
      sumSquares := Wrap64(sumSquares + Wrap64(b * b));
    }
    SummedAll(xs, sum, sumSquares, window);
    r := Report(Mbps(sum / bytes.Length, window), Quotient(Wrap64(sum * sum), Wrap64(bytes.Length * sumSquares)));
  }

  // The loops of the aggregate rates go on with the sum of the group before.
  method AddGroup(bytes: array<U64>, start: U64) returns (sum: U64)
    ensures sum == Wrap64(start + Sum(bytes[..]))
  {
    hide Wrap64, Sum, SumSquares;
    ghost var xs: seq<nat> := bytes[..];
    sum := start;
    SumsNone(xs);
    WrapSmall(start);
    for i := 0 to bytes.Length
      invariant sum == Wrap64(start + Sum(xs[..i]))
    {
      SumsStep(xs, i);
      WrapAdd(start + Sum(xs[..i]), xs[i]);
      sum := Wrap64(sum + bytes[i]);
    }
    assert xs[..|xs|] == xs;
  }

  // Three groups of 10, 20 and 10 flows; the first two share link T1, the first and the third end
  // at R1. The aggregates are in Gbps.
  method PrintFairness(s1r1: array<U64>, s2r2: array<U64>, s3r1: array<U64>, window: real)
    returns (first: Report, second: Report, third: Report, throughT1: real, toR1: real)
    requires s1r1.Length == 10 && s2r2.Length == 20 && s3r1.Length == 10 && window > 0.0
    ensures first == ReportOf(s1r1[..], window) && second == ReportOf(s2r2[..], window) &&
            third == ReportOf(s3r1[..], window)
    ensures throughT1 == Wrap64((Sum(s1r1[..]) + Sum(s2r2[..])) * 8) as real / 1000000000.0
    ensures toR1 == Wrap64((Sum(s3r1[..]) + Sum(s1r1[..])) * 8) as real / 1000000000.0
  {
    hide Wrap64, Sum, ReportOf;
    first := GroupReport(s1r1, window);
    second := GroupReport(s2r2, window);
    third := GroupReport(s3r1, window);
    var sum := AddGroup(s1r1, 0);
    sum := AddGroup(s2r2, sum);
    WrapAdd(Sum(s1r1[..]), Sum(s2r2[..]));
    WrapProduct(Sum(s1r1[..]) + Sum(s2r2[..]), 8);
    var total: nat := sum;
    throughT1 := Wrap64(total * 8) as real / 1000000000.0;
    sum := AddGroup(s3r1, 0);
    sum := AddGroup(s1r1, sum);
    WrapAdd(Sum(s3r1[..]), Sum(s1r1[..]));
    WrapProduct(Sum(s3r1[..]) + Sum(s1r1[..]), 8);
    total := sum;
    toR1 := Wrap64(total * 8) as real / 1000000000.0;
  }

  lemma SumsNone(xs: seq<nat>)
    ensures Sum(xs[..0]) == 0 == SumSquares(xs[..0])
    ensures Wrap64(0) == 0
  {
  }

  lemma WrapSums(a: nat, b: nat)
    ensures Wrap64(Wrap64(a) + b) == Wrap64(a + b) == Wrap64(Wrap64(a) + Wrap64(b))
  {
    hide Wrap64;
    WrapAdd(a, b);
    WrapAdd(b, Wrap64(a));
  }

  lemma WrapSquare(a: nat)
    ensures Wrap64(Wrap64(a) * Wrap64(a)) == Wrap64(a * a)
  {
    hide Wrap64;
    var w: nat := Wrap64(a);
    WrapProduct(a, w);
    WrapProduct(a, a);
    assert a * w == w * a;
  }

  // ---- what the numbers mean while nothing wraps ----

  // Counters below 2^32 / n: the index is the quotient of the exact sums, None exactly when all
  // counters are zero, and otherwise between 1/n and 1 and 1 exactly for equal flows. The average
  // is that of the mean counter rounded down to whole bytes.
  lemma ReportMeaning(xs: seq<nat>, window: real)
    requires xs != [] && Fits(xs) && window > 0.0
    ensures var r := ReportOf(xs, window);
            && (r.index == None <==> forall i :: 0 <= i < |xs| ==> xs[i] == 0)
            && (r.index != None ==>
                  && r.index == Some((Sum(xs) * Sum(xs)) as real / (|xs| * SumSquares(xs)) as real)
                  && 1.0 / (|xs| as real) <= r.index.value <= 1.0 && (r.index.value == 1.0 <==> AllEqual(xs)))
            && r.average == (Sum(xs) / |xs| * 8) as real / window / 1000000.0
  {
    hide Wrap64, Sum, SumSquares, Fits, AllEqual;
    var s, q, n := Sum(xs), SumSquares(xs), |xs|;
    assert xs[..n] == xs;
    PrefixSmall(xs, n);
    WrapSmall(s);
    WrapSmall(s * s);
    WrapSmall(n * q);
    Share(s, n);
    WrapSmall(s / n * 8);
    if i :| 0 <= i < n && xs[i] > 0 {
      IndexRange(xs);
    } else {
      ZeroSums(xs);
    }
  }

  lemma Share(s: nat, n: nat)
    requires n > 0 && s < 0x1_0000_0000
    ensures s / n * 8 < U64_SIZE
  {
    assert s / n * n <= s;
    Product(1, n, s / n, s / n);
  }

  lemma {:induction false} ZeroSums(xs: seq<nat>)
    requires forall i :: 0 <= i < |xs| ==> xs[i] == 0
    ensures Sum(xs) == 0 == SumSquares(xs)
  {
    if xs != [] {
      ZeroSums(xs[..|xs| - 1]);
    }
  }

  lemma SumsStep(xs: seq<nat>, i: nat)
    requires i < |xs|
    ensures Sum(xs[..i + 1]) == Sum(xs[..i]) + xs[i] && SumSquares(xs[..i + 1]) == SumSquares(xs[..i]) + xs[i] * xs[i]
  {
    assert xs[..i + 1][..i] == xs[..i];
  }

  lemma WrapSmall(x: nat)
    ensures x < U64_SIZE ==> Wrap64(x) == x
  {
  }

  lemma {:induction false} SumsBound(xs: seq<nat>, b: nat)
    requires forall i :: 0 <= i < |xs| ==> xs[i] <= b
    ensures Sum(xs) <= |xs| * b && SumSquares(xs) <= |xs| * (b * b)
  {
    if xs != [] {
      var k := |xs| - 1;
      SumsBound(xs[..k], b);
      Product(xs[k], b, xs[k], b);
      OneMore(k, b);
      OneMore(k, b * b);
    }
  }

  lemma OneMore(k: nat, b: nat)
    ensures (k + 1) * b == k * b + b
  {
  }

  lemma Product(a: nat, b: nat, c: nat, d: nat)
    requires a <= b && c <= d
    ensures a * c <= b * d
  {
    assert a * c <= b * c && b * c <= b * d;
  }

  lemma {:induction false} SumPrefix(xs: seq<nat>, i: nat)
    requires i <= |xs|
    ensures Sum(xs[..i]) <= Sum(xs) && SumSquares(xs[..i]) <= SumSquares(xs)
  {
    if i == |xs| {
      assert xs[..i] == xs;
    } else {
      SumPrefix(xs[..|xs| - 1], i);
      assert xs[..|xs| - 1][..i] == xs[..i];
    }
  }

  // Counters below 2^32 / n keep every intermediate result below 2^64.
  lemma PrefixSmall(xs: seq<nat>, i: nat)
    requires 0 < i <= |xs|
    ensures Fits(xs) ==>
              && Sum(xs[..i]) < 0x1_0000_0000 && SumSquares(xs[..i]) < U64_SIZE && xs[i - 1] * xs[i - 1] < U64_SIZE
              && Sum(xs) * Sum(xs) < U64_SIZE && |xs| * SumSquares(xs) < U64_SIZE
  {
    if Fits(xs) {
      var n, b := |xs|, 0xffff_ffff / |xs|;
      forall j | 0 <= j < n ensures xs[j] <= b {
        assert xs[j] * n <= 0xffff_ffff;
        DivAtLeast(0xffff_ffff, n, xs[j]);
      }
      hide Sum, SumSquares, Fits;
      SumsBound(xs, b);
      SumPrefix(xs, i);
      Product(xs[i - 1], b, xs[i - 1], b);
      SmallProducts(n, b, Sum(xs), SumSquares(xs));
    }
  }

  lemma SmallProducts(n: nat, b: nat, s: nat, q: nat)
    requires n > 0 && b == 0xffff_ffff / n && s <= n * b && q <= n * (b * b)
    ensures s <= 0xffff_ffff && s * s < U64_SIZE && q <= n * q < U64_SIZE && b * b < U64_SIZE
  {
    var m: nat := 0xffff_ffff;
    assert n * b <= m;
    Product(s, m, s, m);
    Product(n, n, q, n * (b * b));
    assert n * (n * (b * b)) == (n * b) * (n * b);
    Product(n * b, m, n * b, m);
    Product(1, n, q, q);
    Product(1, n, b, b);
    Product(b, m, b, m);
    assert m * m < U64_SIZE;
  }

  lemma DivAtLeast(m: nat, n: nat, x: nat)
    requires n > 0 && x * n <= m
    ensures x <= m / n
  {
    var d := m / n;
    assert m == d * n + m % n;
    if x > d {
      Product(d + 1, x, n, n);
    }
  }

  // ---- the bounds of the index ----

  // Sum of squared differences from x.
  ghost function Spread(xs: seq<nat>, x: nat): nat {
    if xs == [] then 0 else Spread(xs[..|xs| - 1], x) + Squared(xs[|xs| - 1] - x)
  }

  function Squared(d: int): nat {
    SquareNonNegative(d);
    d * d
  }

  lemma SquareNonNegative(d: int)
    ensures d * d >= 0
  {
  }

  lemma {:induction false} SpreadForm(xs: seq<nat>, x: nat)
    ensures Spread(xs, x) == SumSquares(xs) - 2 * x * Sum(xs) + |xs| * (x * x)
  {
    if xs != [] {
      hide Squared;
      var k := |xs| - 1;
      SpreadForm(xs[..k], x);
      SpreadStep(SumSquares(xs[..k]), Sum(xs[..k]), k, xs[k], x);
    }
  }

  lemma SpreadStep(q: nat, s: nat, k: nat, y: nat, x: nat)
    ensures q - 2 * x * s + k * (x * x) + Squared(y - x) == (q + y * y) - 2 * x * (s + y) + (k + 1) * (x * x)
  {
    assert (y - x) * (y - x) == y * y - 2 * x * y + x * x;
    assert 2 * x * (s + y) == 2 * x * s + 2 * x * y;
    assert (k + 1) * (x * x) == k * (x * x) + x * x;
  }

  lemma {:induction false} SpreadZero(xs: seq<nat>, x: nat)
    ensures Spread(xs, x) == 0 <==> forall i :: 0 <= i < |xs| ==> xs[i] == x
  {
    if xs != [] {
      var k := |xs| - 1;
      SpreadZero(xs[..k], x);
      ZeroSquare(xs[k] - x);
      assert (forall i :: 0 <= i < |xs| ==> xs[i] == x) <==> xs[k] == x && forall i :: 0 <= i < k ==> xs[..k][i] == x;
    }
  }

  lemma ZeroSquare(d: int)
    ensures Squared(d) == 0 <==> d == 0
  {
  }

  // n * sum of squares exceeds the squared sum by nothing exactly when all counters are equal.
  lemma {:induction false} Cauchy(xs: seq<nat>)
    ensures Sum(xs) * Sum(xs) <= |xs| * SumSquares(xs)
    ensures Sum(xs) * Sum(xs) == |xs| * SumSquares(xs) <==> AllEqual(xs)
  {
    if xs != [] {
      var k := |xs| - 1;
      var r, x := xs[..k], xs[k];
      Cauchy(r);
      SpreadForm(r, x);
      SpreadZero(r, x);
      GapStep(k, SumSquares(r), Sum(r), x);
      assert AllEqual(xs) <==> AllEqual(r) && forall i :: 0 <= i < k ==> r[i] == x by {
        if AllEqual(xs) {
          assert forall i :: 0 <= i < k ==> r[i] == xs[i] && xs[i] == xs[k];
        }
      }
    }
  }

  lemma GapStep(k: nat, q: nat, s: nat, x: nat)
    ensures (k + 1) * (q + x * x) - (s + x) * (s + x) == k * q - s * s + (q - 2 * x * s + k * (x * x))
  {
  }

  lemma {:induction false} SquaresAtMost(xs: seq<nat>)
    ensures SumSquares(xs) <= Sum(xs) * Sum(xs)
  {
    if xs != [] {
      var k := |xs| - 1;
      var s, x := Sum(xs[..k]), xs[k];
      SquaresAtMost(xs[..k]);
      assert (s + x) * (s + x) == s * s + 2 * (s * x) + x * x;
      Product(0, s, 0, x);
    }
  }

  // Unless all counters are zero the index lies between 1/n and 1, and is 1 exactly for equal flows.
  lemma IndexRange(xs: seq<nat>)
    requires exists i :: 0 <= i < |xs| && xs[i] > 0
    ensures var p, q := (Sum(xs) * Sum(xs)) as real, (|xs| * SumSquares(xs)) as real;
            q > 0.0 && 1.0 / (|xs| as real) <= p / q <= 1.0 && (p / q == 1.0 <==> AllEqual(xs))
  {
    hide Sum, SumSquares, AllEqual;
    Cauchy(xs);
    SquaresAtMost(xs);
    SomeSquare(xs);
    RangeOf(Sum(xs) * Sum(xs), |xs|, SumSquares(xs));
  }

  lemma RangeOf(p: nat, n: nat, s: nat)
    requires 0 < s <= p <= n * s && n > 0
    ensures var q := (n * s) as real;
            q > 0.0 && 1.0 / (n as real) <= p as real / q <= 1.0 && (p as real / q == 1.0 <==> p == n * s)
  {
    assert (n * s) as real == (n as real) * (s as real);
    RealQuotient(p as real, (n * s) as real, n as real, s as real);
  }

  lemma {:induction false} SomeSquare(xs: seq<nat>)
    requires exists i :: 0 <= i < |xs| && xs[i] > 0
    ensures SumSquares(xs) > 0
  {
    var k := |xs| - 1;
    if xs[k] > 0 {
      Product(1, xs[k], 1, xs[k]);
    } else {
      var i :| 0 <= i < |xs| && xs[i] > 0;
      assert xs[..k][i] > 0;
      SomeSquare(xs[..k]);
      SquareNonNegative(xs[k]);
    }
  }

  lemma RealQuotient(p: real, q: real, n: real, s: real)
    requires q == n * s && s <= p <= q && n > 0.0 && s > 0.0 && q > 0.0
    ensures 1.0 / n <= p / q <= 1.0 && (p / q == 1.0 <==> p == q)
  {
    var r := p / q;
    assert r * q == p && 1.0 / n * n == 1.0;
    assert r * n * s == r * q;
    Cancel(r * n, 1.0, s);
    Cancel(r, 1.0 / n, n);
    Cancel(1.0, r, q);
  }

  lemma Cancel(a: real, b: real, c: real)
    requires c > 0.0 && a * c >= b * c
    ensures a >= b
  {
  }
}

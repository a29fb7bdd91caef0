/** Which partitions a producer that flushes every `step` minutes reaches through time_partitioner. */
module Partitioner {
  import opened Arithmetic
  import opened Basics
  import opened KafkaFormat

  // ---------- greatest common divisor ----------

  function Gcd(a: nat, b: nat): (g: nat)
    decreases b
  {
    if b == 0 then a else Gcd(b, a % b)
  }

  ghost predicate Divides(d: nat, x: int)
  {
    exists q: int :: x == d * q
  }

  lemma DividesSum(d: nat, x: int, y: int, m: int)
    requires Divides(d, x) && Divides(d, y)
    ensures Divides(d, x + y * m)
  {
    var q :| x == d * q;
    var r :| y == d * r;
    assert d * q + (d * r) * m == d * (q + r * m) by { Distribute(d, q, r, m); }
  }

  lemma Distribute(d: int, q: int, r: int, m: int)
    ensures d * q + (d * r) * m == d * (q + r * m)
  {
  }

  /** Gcd divides both arguments and is an integer combination of them. */
  lemma {:induction false} Bezout(a: nat, b: nat) returns (x: int, y: int)
    ensures Gcd(a, b) == a * x + b * y
    ensures Divides(Gcd(a, b), a) && Divides(Gcd(a, b), b)
    ensures a > 0 || b > 0 ==> Gcd(a, b) > 0
    decreases b
  {
    if b == 0 {
      x, y := 1, 0;
      assert a == a * 1;
      assert 0 == a * 0;
    } else {
      var u, v := Bezout(b, a % b);
      x, y := v, u - (a / b) * v;
      var g, q, r := Gcd(b, a % b), a / b, a % b;
      assert a == q * b + r;
      DividesSum(g, r, b, q);
      assert r + b * q == a;
      BezoutStep(a, b, q, r, u, v);
    }
  }

  lemma BezoutStep(a: int, b: int, q: int, r: int, u: int, v: int)
    requires a == q * b + r
    ensures b * u + r * v == a * v + b * (u - q * v)
  {
    assert a * v == (q * b) * v + r * v;
    assert (q * b) * v == b * (q * v);
    assert b * (u - q * v) == b * u - b * (q * v);
  }

  /** Gcd is the largest common divisor: any common divisor divides it. */
  lemma GcdIsGreatest(a: nat, b: nat, d: nat)
    requires Divides(d, a) && Divides(d, b)
    ensures Divides(d, Gcd(a, b))
  {
    var x, y := Bezout(a, b);
    DividesSum(d, 0, a, x) by { assert 0 == d * 0; }
    DividesSum(d, a * x, b, y);
  }

  /** No number above 1 divides both. */
  ghost predicate Coprime(a: nat, b: nat) {
    forall d: nat :: Divides(d, a) && Divides(d, b) ==> d == 1
  }

  lemma CoprimeIff(a: nat, b: nat)
    requires b > 0
    ensures Coprime(a, b) <==> Gcd(a, b) == 1
  {
    var x, y := Bezout(a, b);
    if Gcd(a, b) == 1 {
      forall d: nat | Divides(d, a) && Divides(d, b) ensures d == 1 {
        GcdIsGreatest(a, b, d);
        DivisorOfOne(d);
      }
    }
  }

  lemma DivisorOfOne(d: nat)
    requires Divides(d, 1)
    ensures d == 1
  {
    var q :| 1 == d * q;
    if q > 0 {
      MulMonotone(1, q, d);
    }
  }

  // ---------- the period ----------

  /** The cycle length n / gcd(s, n). */
  function Period(s: nat, n: nat): nat
    requires n > 0
  {
    n / GcdPos(s, n)
  }

  function GcdPos(s: nat, n: nat): (g: nat)
    requires n > 0
    ensures g > 0
  {
    assert Gcd(s, n) > 0 by { var x, y := Bezout(s, n); }
    Gcd(s, n)
  }

  lemma Quotients(s: nat, n: nat) returns (s1: nat, n1: nat)
    requires n > 0
    ensures s == Gcd(s, n) * s1 && n == Gcd(s, n) * n1
    ensures n1 == Period(s, n) && n1 > 0
  {
    var x, y := Bezout(s, n);
    var g := GcdPos(s, n);
    var q :| s == g * q;
    var r :| n == g * r;
    SignOfFactor(g, q);
    SignOfFactor(g, r);
    s1, n1 := q, r;
    assert n / g == r by { DivExact(g, r); }
    ProductBounds(g, r);
  }

  lemma SignOfFactor(g: nat, q: int)
    requires g > 0 && g * q >= 0
    ensures q >= 0
  {
    ProductBounds(g, q);
  }

  lemma DivExact(g: nat, r: int)
    requires g > 0
    ensures (g * r) / g == r
  {
    ModUnique(g * r, g, r, 0);
  }

  /** Moving by d steps returns to the same partition exactly when the period divides d. */
  lemma SamePartitionIff(s: nat, n: nat, a: nat, d: nat)
    requires n > 0
    ensures (a + d * s) % n == a % n <==> Divides(Period(s, n), d)
  {
    var s1, n1 := Quotients(s, n);
    var g := GcdPos(s, n);
    if Divides(n1, d) {
      var q :| d == n1 * q;
      assert d * s == n * (q * s1) by { Rearrange(n1, q, g, s1); }
      AddMultiple(a, n, q * s1);
    }
    if (a + d * s) % n == a % n {
      var k := (a + d * s) / n - a / n;
      assert d * s == n * k by { DifferenceOfMultiples(a, d * s, n); }
      var x, y := Bezout(s, n);
      // d * g = d*(s*x + n*y) = n*(k*x + d*y) = g*n1*(k*x + d*y)
      assert d * g == g * (n1 * (k * x + d * y)) by { Cancel(d, g, s, n, x, y, k, n1); }
      CancelFactor(g, d, n1 * (k * x + d * y));
    }
  }

  lemma Rearrange(n1: int, q: int, g: int, s1: int)
    ensures (n1 * q) * (g * s1) == (g * n1) * (q * s1)
  {
    assert (n1 * q) * (g * s1) == n1 * (q * (g * s1)) == n1 * (g * (q * s1)) == (n1 * g) * (q * s1);
  }

  lemma AddMultiple(a: nat, n: nat, k: int)
    requires n > 0
    ensures (a + n * k) % n == a % n
  {
    assert n * (a / n + k) == n * (a / n) + n * k;
    ModUnique(a + n * k, n, a / n + k, a % n);
  }

  lemma DifferenceOfMultiples(a: nat, m: nat, n: nat)
    requires n > 0 && (a + m) % n == a % n
    ensures m == n * ((a + m) / n - a / n)
  {
    var q, p := (a + m) / n, a / n;
    assert n * (q - p) == n * q - n * p;
  }

  lemma Cancel(d: int, g: int, s: int, n: int, x: int, y: int, k: int, n1: int)
    requires g == s * x + n * y && d * s == n * k && n == g * n1
    ensures d * g == g * (n1 * (k * x + d * y))
  {
    assert d * (s * x) == (d * s) * x == (n * k) * x == n * (k * x);
    assert d * (n * y) == n * (d * y);
    assert d * (s * x + n * y) == d * (s * x) + d * (n * y);
    assert n * (k * x) + n * (d * y) == n * (k * x + d * y);
    assert (g * n1) * (k * x + d * y) == g * (n1 * (k * x + d * y));
  }

  lemma CancelFactor(g: nat, a: int, b: int)
    requires g > 0 && a * g == g * b
    ensures a == b
  {
    ProductBounds(g, b - a);
    assert g * (b - a) == g * b - g * a;
  }

  // ---------- flush times ----------

  /** The i-th flush time of a producer that starts at t0 and flushes every `step` minutes. */
  function FlushTime(t0: u32, step: nat, i: nat): nat { t0 + i * (60 * step) }

  /** The partition of the i-th flush in tsk format. */
  function FlushPartition(t0: u32, step: nat, n: nat, i: nat): nat
    requires n > 0 && FlushTime(t0, step, i) < 0x1_0000_0000
  {
    Partition(BigEndian(FlushTime(t0, step, i), 4), n)
  }

  lemma PartitionOfFlush(t0: u32, step: nat, n: nat, i: nat)
    requires n > 0 && FlushTime(t0, step, i) < 0x1_0000_0000
    ensures FlushPartition(t0, step, n, i) == (t0 / 60 + i * step) % n
  {
    var t := FlushTime(t0, step, i);
    assert Read32(BigEndian(t, 4)) == t by { ReadBack(0, t, 0); }
    hide BigEndian;
    hide FromBigEndian;
    MinutesOf(t0, step, i);
  }

  lemma MinutesOf(t0: nat, step: nat, i: nat)
    ensures (t0 + i * (60 * step)) / 60 == t0 / 60 + i * step
  {
    var m := i * step;
    assert i * (60 * step) == 60 * m;
    var q, r := t0 / 60, t0 % 60;
    assert t0 == 60 * q + r;
    ModUnique(t0 + 60 * m, 60, q + m, r);
  }

  lemma TimesIncrease(t0: u32, step: nat, i: nat, j: nat)
    requires i <= j
    ensures FlushTime(t0, step, i) <= FlushTime(t0, step, j)
  {
    MulMonotone(i, j, 60 * step);
  }

  /** Two flushes reach the same partition exactly when their distance is a multiple of the period. */
  lemma PartitionPeriod(t0: u32, step: nat, n: nat, i: nat, j: nat)
    requires n > 0 && i <= j && FlushTime(t0, step, j) < 0x1_0000_0000
    ensures FlushTime(t0, step, i) < 0x1_0000_0000
    ensures FlushPartition(t0, step, n, i) == FlushPartition(t0, step, n, j) <==> Divides(Period(step, n), j - i)
  {
    hide FlushPartition;
    hide Period;
    TimesIncrease(t0, step, i, j);
    PartitionOfFlush(t0, step, n, i);
    PartitionOfFlush(t0, step, n, j);
    assert j * step == i * step + (j - i) * step by { assert j == i + (j - i); MulDistributes(i, j - i, step); }
    SamePartitionIff(step, n, t0 / 60 + i * step, j - i);
  }

  lemma MulDistributes(a: int, b: int, m: int)
    ensures (a + b) * m == a * m + b * m
  {
  }

  /** The partitions reached by the first m flushes. */
  function Reached(t0: u32, step: nat, n: nat, m: nat): set<nat>
    requires n > 0 && (m > 0 ==> FlushTime(t0, step, m - 1) < 0x1_0000_0000)
  {
    if m == 0 then {}
    else
      TimesIncrease(t0, step, if m > 1 then m - 2 else 0, m - 1);
      Reached(t0, step, n, m - 1) + {FlushPartition(t0, step, n, m - 1)}
  }

  lemma {:induction false} ReachedMembers(t0: u32, step: nat, n: nat, m: nat, p: nat)
    requires n > 0 && (m > 0 ==> FlushTime(t0, step, m - 1) < 0x1_0000_0000)
    ensures p in Reached(t0, step, n, m) <==>
      exists i: nat :: i < m && FlushTime(t0, step, i) < 0x1_0000_0000 && FlushPartition(t0, step, n, i) == p
  {
    hide FlushPartition;
    if m > 0 {
      TimesIncrease(t0, step, if m > 1 then m - 2 else 0, m - 1);
      ReachedMembers(t0, step, n, m - 1, p);
    }
  }

  /** A short run of flushes reaches as many partitions as there are flushes, up to the period. */
  lemma {:induction false} ReachedCount(t0: u32, step: nat, n: nat, m: nat)
    requires n > 0 && (m > 0 ==> FlushTime(t0, step, m - 1) < 0x1_0000_0000)
    ensures |Reached(t0, step, n, m)| == if m < Period(step, n) then m else Period(step, n)
  {
    hide FlushPartition;
    hide Period;
    if m > 0 {
      var k := m - 1;
      TimesIncrease(t0, step, if m > 1 then m - 2 else 0, k);
      ReachedCount(t0, step, n, k);
      var c := Period(step, n);
      var s1, n1 := Quotients(step, n);
      ReachedMembers(t0, step, n, k, FlushPartition(t0, step, n, k));
      if k >= c {
        PartitionPeriod(t0, step, n, k - c, k);
        assert Divides(c, c) by { assert c == c * 1; }
      } else if i: nat :| i < k && FlushTime(t0, step, i) < 0x1_0000_0000 && FlushPartition(t0, step, n, i) == FlushPartition(t0, step, n, k) {
        PartitionPeriod(t0, step, n, i, k);
        NoSmallMultiple(c, k - i);
      }
    }
  }

  lemma NoSmallMultiple(c: nat, d: nat)
    requires 0 < d < c
    ensures !Divides(c, d)
  {
    forall q: int ensures d != c * q {
      ProductBounds(c, q);
      ProductBounds(c, q - 1);
      assert c * (q - 1) == c * q - c;
    }
  }

  /** The partition numbers 0, ..., n - 1. */
  function AllPartitions(n: nat): (ps: set<nat>)
    ensures forall p :: p in ps <==> 0 <= p < n
  {
    if n == 0 then {} else AllPartitions(n - 1) + {n - 1}
  }

  lemma {:induction false} ReachedInRange(t0: u32, step: nat, n: nat, m: nat)
    requires n > 0 && (m > 0 ==> FlushTime(t0, step, m - 1) < 0x1_0000_0000)
    ensures Reached(t0, step, n, m) <= AllPartitions(n)
  {
    if m > 0 {
      TimesIncrease(t0, step, if m > 1 then m - 2 else 0, m - 1);
      ReachedInRange(t0, step, n, m - 1);
      PartitionOfFlush(t0, step, n, m - 1);
    }
  }

  lemma {:induction false} SizeOfRange(n: nat)
    ensures |AllPartitions(n)| == n
  {
    if n > 0 {
      SizeOfRange(n - 1);
    }
  }

  /** A run that is long enough uses every partition exactly when step and partition count are coprime. */
  lemma AllPartitionsIffCoprime(t0: u32, step: nat, n: nat, m: nat)
    requires n > 0 && m >= n && FlushTime(t0, step, m - 1) < 0x1_0000_0000
    ensures |Reached(t0, step, n, m)| == n / GcdPos(step, n)
    ensures Reached(t0, step, n, m) == AllPartitions(n) <==> Coprime(step, n)
  {
    CoprimeIff(step, n);
    hide Reached;
    ReachedCount(t0, step, n, m);
    ReachedInRange(t0, step, n, m);
    SizeOfRange(n);
    var s1, n1 := Quotients(step, n);
    var g := GcdPos(step, n);
    assert n1 <= n && (n1 == n <==> g == 1) by { FactorSize(g, n1, n); }
    SubsetOfSameSize(Reached(t0, step, n, m), AllPartitions(n));
  }

  lemma FactorSize(g: nat, n1: nat, n: nat)
    requires g > 0 && n1 > 0 && n == g * n1
    ensures n1 <= n && (n1 == n <==> g == 1)
  {
    if g > 1 { MulMonotone(2, g, n1); }
  }

  lemma SubsetOfSameSize(a: set<nat>, b: set<nat>)
    requires a <= b
    ensures |a| == |b| <==> a == b
  {
    assert b == a + (b - a);
  }

  /** The comment beside time_partitioner asks that the partition count not be a multiple of the step.
      That is neither necessary nor sufficient. */
  lemma CommentIsNotTheCondition()
    ensures 6 % 4 != 0 && |Reached(0, 4, 6, 6)| == 3
    ensures 6 % 1 == 0 && |Reached(0, 1, 6, 6)| == 6
  {
    hide Reached;
    ReachedCount(0, 4, 6, 6);
    ReachedCount(0, 1, 6, 6);
    assert Gcd(4, 6) == 2 by { assert Gcd(4, 2) == Gcd(2, 0); }
    assert Gcd(1, 6) == 1 by { assert Gcd(6, 1) == Gcd(1, 0); }
  }
}

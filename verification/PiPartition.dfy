/**
 * The pi computation of src/test_mck/src/cpu_thread_limits/001.c.
 *
 * The main thread cuts [0, numdiv) into one range per child, creates the children, spins until
 * every child has set `waiting`, opens `threads_barrier`, joins the children and adds up their
 * partial sums.  Arithmetic is exact (real).
 */
module PiPartition {
  import opened Prelude
  import SpinGate

  /** numdiv and thread_num, both positive. */
  datatype Config = Config(numdiv: nat, count: nat) {
    ghost predicate Valid() { numdiv >= 1 && count >= 1 }
  }

  // ----- the ranges

  /** istart of child ith; iend of child ith is Start(c, ith + 1). */
  function Start(c: Config, ith: nat): (r: nat)
    requires c.count >= 1
  {
    ith * c.numdiv / c.count
  }

  lemma {:induction false} MulMono(a: int, b: int, n: nat)
    requires a <= b
    ensures a * n <= b * n
  {
  }

  /** The quotient is the only q with q*n <= x < q*n + n. */
  lemma {:induction false} DivUnique(x: nat, n: nat, q: int)
    requires n >= 1 && q * n <= x < q * n + n
    ensures x / n == q
  {
    var d := x / n;
    assert d * n <= x < d * n + n;
    if d < q {
      MulMono(d + 1, q, n);
      assert false;
    } else if d > q {
      MulMono(q + 1, d, n);
      assert false;
    }
  }

  /** The ranges begin at the exact quotients, rounded down. */
  lemma {:induction false} StartIsFloor(c: Config, ith: nat)
    requires c.Valid()
    ensures Start(c, ith) * c.count <= ith * c.numdiv < (Start(c, ith) + 1) * c.count
  {
  }

  /** Adding y to x adds y/n or one more to the quotient. */
  lemma {:induction false} DivStep(x: nat, y: nat, n: nat)
    requires n >= 1
    ensures y / n <= (x + y) / n - x / n <= y / n + 1
  {
    var r := x % n + y % n;
    assert x == (x / n) * n + x % n;
    assert y == (y / n) * n + y % n;
    var q := x / n + y / n;
    assert q * n == (x / n) * n + (y / n) * n;
    if r < n {
      DivUnique(x + y, n, q);
    } else {
      assert (q + 1) * n == q * n + n;
      DivUnique(x + y, n, q + 1);
    }
  }

  /** Every range has numdiv/n points or one more, so any two differ by at most one. */
  lemma {:induction false} Balanced(c: Config, ith: nat)
    requires c.Valid() && ith < c.count
    ensures c.numdiv / c.count <= Start(c, ith + 1) - Start(c, ith) <= c.numdiv / c.count + 1
  {
    DivStep(ith * c.numdiv, c.numdiv, c.count);
    assert (ith + 1) * c.numdiv == ith * c.numdiv + c.numdiv;
  }

  /** The first range starts at 0 and the last one ends at numdiv. */
  lemma {:induction false} Ends(c: Config)
    requires c.Valid()
    ensures Start(c, 0) == 0 && Start(c, c.count) == c.numdiv
  {
    DivUnique(c.count * c.numdiv, c.count, c.numdiv);
  }

  /** istart of every child and, in the last place, iend of the last one. */
  function Cuts(c: Config): (r: seq<int>)
    requires c.Valid()
    ensures |r| == c.count + 1
  {
    seq(c.count + 1, i requires 0 <= i => Start(c, i))
  }

  ghost predicate Ascending(cuts: seq<int>) {
    forall i :: 0 <= i < |cuts| - 1 ==> cuts[i] <= cuts[i + 1]
  }

  lemma {:induction false} CutsAscend(c: Config)
    requires c.Valid()
    ensures Ascending(Cuts(c)) && Cuts(c)[0] == 0 && Cuts(c)[c.count] == c.numdiv
  {
    Ends(c);
    forall i | 0 <= i < c.count
      ensures Cuts(c)[i] <= Cuts(c)[i + 1]
    {
      Balanced(c, i);
    }
  }

  lemma {:induction false} Ascends(cuts: seq<int>, i: nat, j: nat)
    requires Ascending(cuts) && i <= j < |cuts|
    ensures cuts[i] <= cuts[j]
    decreases j - i
  {
    if i < j {
      Ascends(cuts, i, j - 1);
    }
  }

  predicate Owns(cuts: seq<int>, ith: nat, x: int)
    requires ith + 1 < |cuts|
  {
    cuts[ith] <= x < cuts[ith + 1]
  }

  lemma {:induction false} OwnerBelow(cuts: seq<int>, x: int, j: nat) returns (ith: nat)
    requires Ascending(cuts) && j < |cuts| && cuts[0] <= x < cuts[j]
    ensures ith + 1 < |cuts| && Owns(cuts, ith, x)
  {
    if cuts[j - 1] <= x {
      return j - 1;
    }
    ith := OwnerBelow(cuts, x, j - 1);
  }

  /** Each point of [0, numdiv) belongs to exactly one child. */
  lemma {:induction false} Tiles(c: Config, x: nat)
    requires c.Valid() && x < c.numdiv
    ensures exists ith: nat :: ith < c.count && Owns(Cuts(c), ith, x)
    ensures forall i: nat, j: nat :: i < c.count && j < c.count && Owns(Cuts(c), i, x) && Owns(Cuts(c), j, x) ==> i == j
  {
    var cuts := Cuts(c);
    CutsAscend(c);
    var ith := OwnerBelow(cuts, x, c.count);
    forall i: nat, j: nat | i < j < c.count && Owns(cuts, i, x)
      ensures !Owns(cuts, j, x)
    {
      Ascends(cuts, i + 1, j);
    }
  }

  const NUMDIV: nat := 200000000

  /** For the program's numdiv no product leaves the 64-bit long, whatever the int thread count. */
  lemma {:induction false} NoOverflow(ith: nat, n: nat)
    requires ith < n <= 0x7fff_ffff
    ensures ith * NUMDIV <= (ith + 1) * NUMDIV <= 0x7fff_ffff_ffff_ffff
  {
  }

  // ----- the sum

  /** One term of the midpoint rule. */
  function Term(numdiv: nat, i: int): real
    requires numdiv >= 1
  {
    var x := (i as real + 0.5) * (1.0 / numdiv as real);
    assert x * x >= 0.0;
    4.0 / (1.0 + x * x)
  }

  /** The work the children do: their ranges, the terms they add and the factor dx. */
  function Job(c: Config): (j: SpinGate.Config)
    requires c.Valid()
    ensures j.Valid() && j.count == c.count && j.cuts == Cuts(c)
    ensures j.cuts[0] == 0 && j.cuts[j.count] == c.numdiv
  {
    CutsAscend(c);
    SpinGate.Config(c.count, Cuts(c), i => Term(c.numdiv, i), 1.0 / c.numdiv as real)
  }

  // ----- the area under 4 / (1 + x*x) from 0 to 1

  /** The area of the first m rectangles of a stepwise curve when each is as high as its right end. */
  function RightSum(step: nat -> real, m: nat): real {
    if m == 0 then 0.0 else RightSum(step, m - 1) + step(m)
  }

  /** The same with each rectangle as high as its left end. */
  function LeftSum(step: nat -> real, m: nat): real {
    if m == 0 then 0.0 else LeftSum(step, m - 1) + step(m - 1)
  }

  /** The two sums differ by the first and the last step only. */
  lemma {:induction false} SumsApart(step: nat -> real, m: nat)
    ensures LeftSum(step, m) - RightSum(step, m) == step(0) - step(m)
  {
    if m > 0 {
      SumsApart(step, m - 1);
    }
  }

  /** The same with each rectangle as high as some point in between. */
  function MidSum(mid: nat -> real, m: nat): real {
    if m == 0 then 0.0 else MidSum(mid, m - 1) + mid(m - 1)
  }

  ghost predicate Between(step: nat -> real, mid: nat -> real) {
    forall i: nat :: step(i + 1) < mid(i) < step(i)
  }

  lemma {:induction false} SumsBetween(step: nat -> real, mid: nat -> real, m: nat)
    requires m >= 1 && Between(step, mid)
    ensures RightSum(step, m) < MidSum(mid, m) < LeftSum(step, m)
  {
    var k: nat := m - 1;
    assert step(k + 1) < mid(k) < step(k);
    if m > 1 {
      SumsBetween(step, mid, k);
    }
  }

  lemma {:induction false} Distribute(a: real, b: real, d: real)
    ensures (a + b) * d == a * d + b * d
  {
  }

  /** Scaling a sum scales its terms. */
  lemma {:induction false} ScaledSum(term: int -> real, dx: real, mid: nat -> real, m: nat)
    requires forall i: nat :: mid(i) == term(i) * dx
    ensures SpinGate.RangeSum(term, 0, m) * dx == MidSum(mid, m)
  {
    if m > 0 {
      var k: nat := m - 1;
      ScaledSum(term, dx, mid, k);
      Distribute(SpinGate.RangeSum(term, 0, k), term(k), dx);
      assert mid(k) == term(k) * dx;
    }
  }

  /** One n-th of 4 / (1 + x*x) at x = m / n. */
  function Step(n: nat, m: nat): real
    requires n >= 1
  {
    4.0 * n as real / (n * n + m * m) as real
  }

  function Curve(n: nat): nat -> real
    requires n >= 1
  {
    (m: nat) => Step(n, m)
  }

  /**
   * v is strictly between the areas of the n rectangles below and the n rectangles above the curve
   * from 0 to 1, which are 2/n apart.
   */
  ghost predicate IsArea(n: nat, v: real)
    requires n >= 1
  {
    && RightSum(Curve(n), n) < v < LeftSum(Curve(n), n)
    && LeftSum(Curve(n), n) - RightSum(Curve(n), n) == 2.0 / n as real
  }

  lemma {:induction false} StepIs(n: nat, m: nat)
    requires n >= 1
    ensures Step(n, m) * (n * n + m * m) as real == 4.0 * n as real
  {
  }

  /** q is a / b if q * b is a. */
  lemma {:induction false} Quotient(a: real, b: real, q: real)
    requires b > 0.0 && q * b == a
    ensures a / b == q
  {
    assert (a / b) * b == a;
    assert (a / b - q) * b == 0.0;
  }

  /** The whole curve falls from 4 to 2. */
  lemma {:induction false} CurveFalls(n: nat)
    requires n >= 1
    ensures Step(n, 0) - Step(n, n) == 2.0 / n as real
  {
    var x := n as real;
    assert (4.0 / x) * (x * x) == 4.0 * x;
    Quotient(4.0 * x, x * x, 4.0 / x);
    assert (2.0 / x) * (2.0 * x * x) == 4.0 * x;
    Quotient(4.0 * x, 2.0 * x * x, 2.0 / x);
    assert (n * n + n * n) as real == 2.0 * x * x;
  }

  lemma {:induction false} TermIs(n: real, y: real, t: real)
    requires n > 0.0 && y >= 0.0
    requires var x := (y + 0.5) * (1.0 / n); 1.0 + x * x > 0.0 && t == 4.0 / (1.0 + x * x)
    ensures t * (4.0 * n * n + (2.0 * y + 1.0) * (2.0 * y + 1.0)) == 16.0 * n * n
  {
    var x := (y + 0.5) * (1.0 / n);
    assert x * n == y + 0.5;
    assert t * (1.0 + x * x) == 4.0;
    assert 4.0 * (x * n) * (x * n) == (2.0 * y + 1.0) * (2.0 * y + 1.0);
    assert 4.0 * n * n * (1.0 + x * x) == 4.0 * n * n + (2.0 * y + 1.0) * (2.0 * y + 1.0);
  }

  /** The terms the children add, and their factor, without a division. */
  lemma {:induction false} JobIs(c: Config, i: nat)
    requires c.Valid()
    ensures Job(c).dx * c.numdiv as real == 1.0
    ensures Job(c).term(i) * (4 * c.numdiv * c.numdiv + (2 * i + 1) * (2 * i + 1)) as real
            == (16 * c.numdiv * c.numdiv) as real
  {
    var n, y := c.numdiv as real, i as real;
    TermIs(n, y, Job(c).term(i));
  }

  lemma {:induction false} Scaled(n: real, b: real, t: real, u: real)
    requires u * n == 1.0 && t * b == 16.0 * n * n
    ensures (t * u) * b == 16.0 * n
  {
    assert (t * u) * b == (t * b) * u;
    assert (16.0 * n * n) * u == 16.0 * n * (u * n);
  }

  lemma {:induction false} LargerFactor(a: real, b: real, d: real, q: real, r: real)
    requires a > 0.0 && 0.0 < b < d && q * b == a && r * d == a
    ensures r < q
  {
    assert (q - r) * b == r * (d - b);
  }

  /** The same numerator over three growing denominators. */
  lemma {:induction false} Nested(n: real, a: real, b: real, c: real, q: real, r: real, p: real)
    requires n > 0.0 && 0.0 < 4.0 * a < b < 4.0 * c
    requires q * a == 4.0 * n && r * b == 16.0 * n && p * c == 4.0 * n
    ensures p < r < q
  {
    assert q * (4.0 * a) == 16.0 * n;
    LargerFactor(16.0 * n, 4.0 * a, b, q, r);
    assert p * (4.0 * c) == 16.0 * n;
    LargerFactor(16.0 * n, b, 4.0 * c, r, p);
  }

  /** t is 4 / (1 + x*x) at x = (i + 1/2) / n, said without a division. */
  predicate IsTerm(n: nat, i: nat, t: real) {
    t * (4 * n * n + (2 * i + 1) * (2 * i + 1)) as real == (16 * n * n) as real
  }

  /** A midpoint is strictly between the ends of its step. */
  lemma {:induction false} Midpoint(n: nat, i: nat, t: real, u: real, mid: real)
    requires n >= 1 && u * n as real == 1.0 && IsTerm(n, i, t) && mid == t * u
    ensures Step(n, i + 1) < mid < Step(n, i)
  {
    var a, b, c := n * n + i * i, 4 * n * n + (2 * i + 1) * (2 * i + 1), n * n + (i + 1) * (i + 1);
    assert b == 4 * a + 4 * i + 1 && 4 * c == b + 4 * i + 3;
    assert a >= 1;
    assert (16 * n * n) as real == 16.0 * n as real * n as real;
    Scaled(n as real, b as real, t, u);
    StepIs(n, i);
    StepIs(n, i + 1);
    Nested(n as real, a as real, b as real, c as real, Step(n, i), mid, Step(n, i + 1));
  }

  ghost predicate AreTerms(n: nat, term: int -> real) {
    forall i: nat {:trigger IsTerm(n, i, term(i))} :: IsTerm(n, i, term(i))
  }

  lemma {:induction false} TermsBetween(n: nat, term: int -> real, dx: real, mid: nat -> real)
    requires n >= 1 && dx * n as real == 1.0 && AreTerms(n, term)
    requires forall i: nat {:trigger mid(i)} :: mid(i) == term(i) * dx
    ensures forall i: nat :: Step(n, i + 1) < mid(i) < Step(n, i)
  {
    forall i: nat
      ensures Step(n, i + 1) < mid(i) < Step(n, i)
    {
      assert IsTerm(n, i, term(i));
      assert mid(i) == term(i) * dx;
      Midpoint(n, i, term(i), dx, mid(i));
    }
  }

  lemma {:induction false} BetweenIsArea(n: nat, mid: nat -> real)
    requires n >= 1 && forall i: nat :: Step(n, i + 1) < mid(i) < Step(n, i)
    ensures IsArea(n, MidSum(mid, n))
  {
    assert Between(Curve(n), mid);
    SumsBetween(Curve(n), mid, n);
    SumsApart(Curve(n), n);
    CurveFalls(n);
    assert Curve(n)(0) == Step(n, 0) && Curve(n)(n) == Step(n, n);
  }

  /** Any sum of such terms over all points, times 1/n, is the area. */
  lemma {:induction false} TermsMakeArea(n: nat, term: int -> real, dx: real, total: real)
    requires n >= 1 && dx * n as real == 1.0 && AreTerms(n, term)
    requires total == SpinGate.RangeSum(term, 0, n) * dx
    ensures IsArea(n, total)
  {
    var mid := (i: nat) => term(i) * dx;
    ScaledSum(term, dx, mid, n);
    TermsBetween(n, term, dx, mid);
    BetweenIsArea(n, mid);
  }

  lemma {:induction false} JobTerms(c: Config, term: int -> real, dx: real)
    requires c.Valid() && term == Job(c).term && dx == Job(c).dx
    ensures dx * c.numdiv as real == 1.0 && AreTerms(c.numdiv, term)
  {
    JobIs(c, 0);
    forall i: nat
      ensures IsTerm(c.numdiv, i, term(i))
    {
      JobIs(c, i);
    }
  }

  /** What a single loop over all points computes. */
  function Total(c: Config): real
    requires c.Valid()
  {
    SpinGate.RangeSum(Job(c).term, 0, c.numdiv) * Job(c).dx
  }

  lemma {:induction false} TotalIsArea(c: Config)
    requires c.Valid()
    ensures IsArea(c.numdiv, Total(c))
  {
    JobTerms(c, Job(c).term, Job(c).dx);
    TermsMakeArea(c.numdiv, Job(c).term, Job(c).dx, Total(c));
  }

  /** Whatever the interleaving, the printed value is what one thread would have computed over [0, numdiv). */
  lemma {:induction false} PartialSumsAddUp(c: Config, acts: seq<SpinGate.Action>)
    requires c.Valid()
    requires SpinGate.Exec(Job(c), SpinGate.Init(Job(c)), acts).Some?
    requires SpinGate.Exec(Job(c), SpinGate.Init(Job(c)), acts).value.main.Printed?
    ensures SpinGate.Exec(Job(c), SpinGate.Init(Job(c)), acts).value.pi == Total(c)
  {
    SpinGate.PrintedSum(Job(c), acts, 0, c.numdiv);
  }

  /** So it lies strictly between the areas below and above the curve 4 / (1 + x*x), which are 2/numdiv apart. */
  lemma {:induction false} PrintedIsArea(c: Config, acts: seq<SpinGate.Action>, s: SpinGate.State)
    requires c.Valid() && SpinGate.Exec(Job(c), SpinGate.Init(Job(c)), acts) == Some(s) && s.main.Printed?
    ensures IsArea(c.numdiv, s.pi)
  {
    PartialSumsAddUp(c, acts);
    TotalIsArea(c);
  }

  /** And it is printed: by every schedule that gives each thread its turn again and again. */
  lemma {:induction false} FairRunsPrint(c: Config, sched: nat -> SpinGate.Action, run: nat -> SpinGate.State)
    returns (m: nat)
    requires c.Valid() && SpinGate.IsRun(Job(c), sched, run) && SpinGate.Fair(Job(c), sched)
    ensures SpinGate.PrintsFrom(run, m, Total(c)) && IsArea(c.numdiv, Total(c))
  {
    m := SpinGate.FairRunsPrint(Job(c), sched, run, 0, c.numdiv);
    TotalIsArea(c);
  }

  /** Some finite schedule of the job prints, so the sum above is the sum of something. */
  lemma {:induction false} SomeSchedulePrints(c: Config)
    requires c.Valid()
    ensures exists acts :: SpinGate.Exec(Job(c), SpinGate.Init(Job(c)), acts).Some?
                           && SpinGate.Exec(Job(c), SpinGate.Init(Job(c)), acts).value.main.Printed?
  {
    SpinGate.InitInv(Job(c));
    var acts := SpinGate.CanFinish(Job(c), SpinGate.Init(Job(c)));
  }
}

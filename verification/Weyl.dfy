// The column iterator of a peel row: a walk in steps of a modulo a prime p that
// skips the positions outside of the b columns.
module Weyl {
  import opened Collections

  ghost predicate IsPrime(p: nat) {
    p >= 2 && forall d :: 1 < d < p ==> p % d != 0
  }

  ghost predicate Walks(b: nat, p: nat, a: nat) {
    1 <= a < b <= p < 0x1_0000
  }

  function Step(x: nat, p: nat, a: nat): (y: nat)
    requires p > 0
    ensures y < p
  {
    (x + a) % p
  }

  // Add until the position is a column.
  ghost function Next(x: nat, b: nat, p: nat, a: nat): (y: nat)
    requires Walks(b, p, a) && x < p
    ensures y < b
    decreases if x < b then p else p - x
  {
    var y := Step(x, p, a);
    if y < b then y else
      StepOutside(x, b, p, a);
      Next(y, b, p, a)
  }

  lemma StepOutside(x: nat, b: nat, p: nat, a: nat)
    requires Walks(b, p, a) && x < p
    ensures Step(x, p, a) == if x + a < p then x + a else x + a - p
  {
    if x + a < p {
      ModOf(x + a, 0, p, x + a);
    } else {
      ModOf(x + a, 1, p, x + a - p);
    }
  }

  // Columns are 16-bit numbers; the product is shifted in 32 bits.
  method IterateNextColumn(x: nat, b: nat, p: nat, a: nat) returns (y: nat)
    requires Walks(b, p, a) && x < b
    ensures y == Next(x, b, p, a)
  {
    StepOutside(x, b, p, a);
    y := (x + a) % p;
    if y >= b {
      NextFromOutside(y, b, p, a);
      var distanceToP := p - y;
      if a >= distanceToP {
        y := a - distanceToP;
      } else {
        y := (a * 0x1_0000 - distanceToP) % a;
      }
    }
  }

  // However many additions it takes to come around.
  lemma {:induction false} NextFromOutside(x: nat, b: nat, p: nat, a: nat)
    requires Walks(b, p, a) && b <= x < p
    ensures a * 0x1_0000 > p - x
    ensures Next(x, b, p, a) == if a >= p - x then a - (p - x) else (a * 0x1_0000 - (p - x)) % a
    decreases p - x
  {
    StepOutside(x, b, p, a);
    TimesAtLeast(a);
    if x + a < p {
      NextFromOutside(x + a, b, p, a);
      AroundOnce(a, p - x);
    }
  }

  lemma TimesAtLeast(a: nat)
    requires a >= 1
    ensures a * 0x1_0000 >= 0x1_0000
  {}

  lemma AroundOnce(a: nat, d: nat)
    requires 1 <= a < d < 0x1_0000
    ensures a * 0x1_0000 > d
    ensures (a * 0x1_0000 - d) % a == if a >= d - a then a - (d - a) else (a * 0x1_0000 - (d - a)) % a
  {
    TimesAtLeast(a);
    var n := a * 0x1_0000 - d;
    ModPlus(n, a);
    if a >= d - a {
      assert n + d == a * 0x1_0000;
      ModOf(n, 0xFFFE, a, 2 * a - d);
    }
  }

  lemma ModPlus(n: nat, a: nat)
    requires a > 0
    ensures (n + a) % a == n % a
  {
    var q := n / a;
    assert (q + 1) * a == q * a + a;
    ModOf(n + a, q + 1, a, n % a);
  }

  lemma ModOf(n: nat, q: nat, a: nat, r: nat)
    requires n == q * a + r && r < a
    ensures n % a == r
  {
    var k, m := n / a, n % a;
    assert (q - k) * a == m - r;
    assert (k - q) * a == r - m;
    if q > k {
      TimesGrows(q - k, a);
    } else if q < k {
      TimesGrows(k - q, a);
    }
  }

  lemma NegativeProduct(m: int, p: nat)
    requires p > 0
    ensures m < 0 ==> m * p < 0
  {}

  lemma TimesGrows(d: nat, a: nat)
    requires d >= 1
    ensures d * a >= a
  {}

  // n successive columns from x on.
  ghost function Outputs(x: nat, b: nat, p: nat, a: nat, n: nat): (s: seq<nat>)
    requires Walks(b, p, a) && x < b
    ensures |s| == n && (n > 0 ==> s[0] == x) && forall i :: 0 <= i < n ==> s[i] < b
    decreases n
  {
    if n == 0 then [] else [x] + Outputs(Next(x, b, p, a), b, p, a, n - 1)
  }

  lemma {:induction false} OutputsSnoc(x: nat, b: nat, p: nat, a: nat, n: nat)
    requires Walks(b, p, a) && x < b && n >= 1
    ensures var s := Outputs(x, b, p, a, n); Outputs(x, b, p, a, n + 1) == s + [Next(s[n - 1], b, p, a)]
    decreases n
  {
    if n > 1 {
      OutputsSnoc(Next(x, b, p, a), b, p, a, n - 1);
    }
  }

  lemma {:induction false} OutputsPrefix(x: nat, b: nat, p: nat, a: nat, m: nat, n: nat)
    requires Walks(b, p, a) && x < b && m <= n
    ensures Outputs(x, b, p, a, m) == Outputs(x, b, p, a, n)[..m]
    decreases m
  {
    if m > 0 {
      OutputsPrefix(Next(x, b, p, a), b, p, a, m - 1, n - 1);
    }
  }

  // All positions of n steps, columns or not.
  ghost function Walk(x: nat, p: nat, a: nat, n: nat): (s: seq<nat>)
    requires p > 0 && x < p
    ensures |s| == n && forall i :: 0 <= i < n ==> s[i] < p
    decreases n
  {
    if n == 0 then [] else [x] + Walk(Step(x, p, a), p, a, n - 1)
  }

  ghost function Below(s: seq<nat>, b: nat): (t: seq<nat>)
    ensures forall y :: y in t <==> y in s && y < b
  {
    if s == [] then [] else (if s[0] < b then [s[0]] else []) + Below(s[1..], b)
  }

  // The iterator outputs what is left of the walk without its detours.
  lemma {:induction false} OutputsOfWalk(x: nat, b: nat, p: nat, a: nat, n: nat)
    requires Walks(b, p, a) && x < p
    ensures var t := Below(Walk(x, p, a, n), b); t == Outputs(if x < b then x else Next(x, b, p, a), b, p, a, |t|)
    decreases n
  {
    hide Walks, Outputs, Walk, Below, Next;
    if n > 0 {
      var y := Step(x, p, a);
      OutputsOfWalk(y, b, p, a, n - 1);
      var rest := Below(Walk(y, p, a, n - 1), b);
      BelowStep(x, p, a, n, b);
      NextStep(x, b, p, a);
      if x < b {
        OutputsStep(x, b, p, a, |rest|);
      }
    } else {
      NoWalk(x, b, p, a);
    }
  }

  lemma BelowStep(x: nat, p: nat, a: nat, n: nat, b: nat)
    requires p > 0 && x < p && n > 0
    ensures var rest := Below(Walk(Step(x, p, a), p, a, n - 1), b);
            Below(Walk(x, p, a, n), b) == if x < b then [x] + rest else rest
  {
    assert Walk(x, p, a, n)[1..] == Walk(Step(x, p, a), p, a, n - 1);
  }

  lemma NextStep(x: nat, b: nat, p: nat, a: nat)
    requires Walks(b, p, a) && x < p
    ensures b > 0 && Next(x, b, p, a) == if Step(x, p, a) < b then Step(x, p, a) else Next(Step(x, p, a), b, p, a)
  {}

  lemma OutputsStep(x: nat, b: nat, p: nat, a: nat, n: nat)
    requires Walks(b, p, a) && x < b
    ensures Outputs(x, b, p, a, n + 1) == [x] + Outputs(Next(x, b, p, a), b, p, a, n)
  {}

  lemma NoWalk(x: nat, b: nat, p: nat, a: nat)
    requires Walks(b, p, a) && x < p
    ensures Below(Walk(x, p, a, 0), b) == [] && forall y: nat :: y < b ==> Outputs(y, b, p, a, 0) == []
  {}

  lemma {:induction false} WalkAt(x: nat, p: nat, a: nat, n: nat, i: nat)
    requires p > 0 && x < p && i < n
    ensures Walk(x, p, a, n)[i] == (x + i * a) % p
    decreases i
  {
    if i > 0 {
      WalkAt(Step(x, p, a), p, a, n - 1, i - 1);
      StepThen(x, p, a, i);
    } else {
      ModOf(x, 0, p, x);
    }
  }

  lemma StepThen(x: nat, p: nat, a: nat, i: nat)
    requires p > 0 && i > 0
    ensures (Step(x, p, a) + (i - 1) * a) % p == (x + i * a) % p
  {
    ModSum(x + a, (i - 1) * a, p);
    LessOne(i, a);
  }

  lemma LessOne(i: nat, a: nat)
    ensures (i - 1) * a + a == i * a
  {}

  lemma ModSum(x: nat, y: nat, p: nat)
    requires p > 0
    ensures (x % p + y) % p == (x + y) % p
  {
    ModTimes(x % p + y, x / p, p);
    assert x == x / p * p + x % p;
  }

  lemma {:induction false} ModTimes(x: nat, q: nat, p: nat)
    requires p > 0
    ensures (x + q * p) % p == x % p
  {
    if q > 0 {
      ModTimes(x, q - 1, p);
      ModPlus(x + (q - 1) * p, p);
      assert x + q * p == x + (q - 1) * p + p;
    }
  }

  // A prime divides no product of smaller numbers.
  lemma {:induction false} NoZeroProduct(d: nat, a: nat, p: nat)
    requires IsPrime(p) && 0 < d < p && 0 < a < p
    ensures d * a % p != 0
    decreases d
  {
    if d > 1 && d * a % p == 0 {
      var q, r := p / d, p % d;
      NoZeroProduct(r, a, p);
      var k := d * a / p;
      Remainder(p, d, q, r, a, k);
    }
  }

  lemma Remainder(p: nat, d: nat, q: nat, r: nat, a: nat, k: nat)
    requires p == q * d + r && d * a == k * p && p > 0
    ensures r * a % p == 0
  {
    assert p * a == q * (d * a) + r * a by {
      assert p * a == (q * d) * a + r * a;
      assert (q * d) * a == q * (d * a);
    }
    assert q * (k * p) == (q * k) * p;
    assert (a - q * k) * p == r * a;
    Multiple(p, a - q * k, r * a);
  }

  lemma Multiple(p: nat, m: int, x: nat)
    requires p > 0 && x == m * p
    ensures x % p == 0
  {
    NegativeProduct(m, p);
    ModOf(x, m, p, 0);
  }

  lemma WalkDistinct(x: nat, p: nat, a: nat)
    requires IsPrime(p) && x < p && 0 < a < p
    ensures Distinct(Walk(x, p, a, p))
  {
    hide IsPrime;
    var s := Walk(x, p, a, p);
    forall i, j | 0 <= i < j < p ensures s[i] != s[j] {
      WalkAt(x, p, a, p, i);
      WalkAt(x, p, a, p, j);
      NoZeroProduct(j - i, a, p);
      assert j * a - i * a == (j - i) * a;
      TimesGrows(j - i, a);
      if s[i] == s[j] {
        SameResidue(x + i * a, x + j * a, p);
      }
    }
  }

  lemma SameResidue(x: nat, y: nat, p: nat)
    requires p > 0 && x <= y && x % p == y % p
    ensures (y - x) % p == 0
  {
    var q := y / p - x / p;
    assert y - x == y / p * p - x / p * p == q * p;
    Multiple(p, q, y - x);
  }

  lemma {:induction false} BelowDistinct(s: seq<nat>, b: nat)
    requires Distinct(s)
    ensures Distinct(Below(s, b))
  {
    if |s| > 0 {
      BelowDistinct(s[1..], b);
      assert s[0] !in s[1..];
    }
  }

  lemma BelowElements(s: seq<nat>, b: nat)
    ensures Elements(Below(s, b)) == set y | y in Elements(s) && y < b
  {}

  // Of all numbers below p, b are below b.
  lemma BelowFills(walk: seq<nat>, b: nat, p: nat)
    requires Distinct(walk) && |walk| == p && b <= p && forall y :: y in walk ==> y < p
    ensures var t := Below(walk, b); Distinct(t) && |t| == b && Elements(t) == Range(b)
  {
    hide Distinct, Below, Elements;
    Fills(walk, p);
    BelowDistinct(walk, b);
    DistinctSize(Below(walk, b));
    BelowElements(walk, b);
    assert (set y | y in Range(p) && y < b) == Range(b);
  }

  // b successive outputs are each of the columns once.
  lemma OutputsPermute(x: nat, b: nat, p: nat, a: nat)
    requires Walks(b, p, a) && IsPrime(p) && x < b
    ensures Distinct(Outputs(x, b, p, a, b))
    ensures Elements(Outputs(x, b, p, a, b)) == Range(b)
  {
    hide IsPrime, Distinct, Outputs, Walk, Below;
    var walk := Walk(x, p, a, p);
    WalkDistinct(x, p, a);
    BelowFills(walk, b, p);
    OutputsOfWalk(x, b, p, a, p);
  }

  lemma PrefixDistinct(s: seq<nat>, n: nat)
    requires Distinct(s) && n <= |s|
    ensures Distinct(s[..n])
  {}

  lemma OutputsDistinct(x: nat, b: nat, p: nat, a: nat, n: nat)
    requires Walks(b, p, a) && IsPrime(p) && x < b && n <= b
    ensures Distinct(Outputs(x, b, p, a, n))
  {
    hide *;
    OutputsPermute(x, b, p, a);
    OutputsPrefix(x, b, p, a, n, b);
    PrefixDistinct(Outputs(x, b, p, a, b), n);
  }
}

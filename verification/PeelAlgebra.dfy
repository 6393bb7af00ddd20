// The linear system behind the peeled rows, and what substituting the peeled
// columns does to it. Bits are the rows of the binary matrix; a value stands for
// one byte of a block.
module PeelAlgebra {
  import opened Collections
  import opened Gf256
  import opened Weyl
  import opened Peels

  // ---- sums over binary rows ----

  function If(b: bool, v: Gf): Gf {
    if b then v else ZERO
  }

  ghost function SumTo(bits: seq<bool>, y: seq<Gf>, k: nat): Gf
    requires k <= |bits| && k <= |y|
  {
    if k == 0 then ZERO else Add(SumTo(bits, y, k - 1), If(bits[k - 1], y[k - 1]))
  }

  function Xor(a: seq<bool>, b: seq<bool>): (c: seq<bool>)
    requires |a| == |b|
    ensures |c| == |a| && forall j :: 0 <= j < |a| ==> c[j] == (a[j] != b[j])
  {
    seq(|a|, j requires 0 <= j < |a| => a[j] != b[j])
  }

  function Flip(a: seq<bool>, j: nat): (c: seq<bool>)
    requires j < |a|
    ensures |c| == |a|
  {
    a[j := !a[j]]
  }

  lemma IfXor(a: bool, b: bool, v: Gf)
    ensures If(a != b, v) == Add(If(a, v), If(b, v))
  {
    AddSelf(v);
    AddZero(v);
    AddZero(ZERO);
  }

  lemma {:induction false} XorSum(a: seq<bool>, b: seq<bool>, y: seq<Gf>, k: nat)
    requires |a| == |b| && k <= |a| && k <= |y|
    ensures SumTo(Xor(a, b), y, k) == Add(SumTo(a, y, k), SumTo(b, y, k))
  {
    hide Add;
    if k == 0 {
      AddZero(ZERO);
    } else {
      XorSum(a, b, y, k - 1);
      IfXor(a[k - 1], b[k - 1], y[k - 1]);
      AddSwap(SumTo(a, y, k - 1), SumTo(b, y, k - 1), If(a[k - 1], y[k - 1]), If(b[k - 1], y[k - 1]));
    }
  }

  lemma {:induction false} FlipSum(a: seq<bool>, j: nat, y: seq<Gf>, k: nat)
    requires j < |a| && k <= |a| && k <= |y|
    ensures SumTo(Flip(a, j), y, k) == if j < k then Add(SumTo(a, y, k), y[j]) else SumTo(a, y, k)
  {
    hide Add;
    if k > 0 {
      FlipSum(a, j, y, k - 1);
      var s, v := SumTo(a, y, k - 1), If(a[k - 1], y[k - 1]);
      if j == k - 1 {
        IfXor(a[j], true, y[j]);
        AddAssoc(s, v, y[j]);
      } else if j < k - 1 {
        AddAssoc(s, y[j], v);
        AddComm(y[j], v);
        AddAssoc(s, v, y[j]);
      }
    }
  }

  lemma {:induction false} SumSame(a: seq<bool>, b: seq<bool>, y: seq<Gf>, k: nat)
    requires k <= |a| && k <= |b| && k <= |y| && forall j :: 0 <= j < k ==> a[j] == b[j]
    ensures SumTo(a, y, k) == SumTo(b, y, k)
  {
    if k > 0 {
      SumSame(a, b, y, k - 1);
    }
  }

  // ---- sums over columns ----

  function Value(x: seq<Gf>, c: nat): Gf {
    if c < |x| then x[c] else ZERO
  }

  // The sum of those of the columns that are in keep.
  ghost function Part(columns: seq<nat>, keep: set<nat>, x: seq<Gf>): Gf {
    if columns == [] then ZERO else
      var n := |columns| - 1;
      Add(Part(columns[..n], keep, x), If(columns[n] in keep, Value(x, columns[n])))
  }

  lemma {:induction false} PartSame(columns: seq<nat>, a: set<nat>, b: set<nat>, x: seq<Gf>, z: seq<Gf>)
    requires forall c :: c in columns ==> (c in a <==> c in b) && (c in a ==> Value(x, c) == Value(z, c))
    ensures Part(columns, a, x) == Part(columns, b, z)
  {
    hide Value, Add;
    if columns != [] {
      PartSame(columns[..|columns| - 1], a, b, x, z);
    }
  }

  lemma {:induction false} PartNone(columns: seq<nat>, a: set<nat>, x: seq<Gf>)
    requires forall c :: c in columns ==> c !in a
    ensures Part(columns, a, x) == ZERO
  {
    hide Value, Add;
    if columns != [] {
      PartNone(columns[..|columns| - 1], a, x);
      AddZero(ZERO);
    }
  }

  lemma DistinctFront(s: seq<nat>)
    requires Distinct(s) && s != []
    ensures var n := |s| - 1; Distinct(s[..n]) && s[n] !in s[..n]
  {
    assert forall i :: 0 <= i < |s| - 1 ==> s[..|s| - 1][i] == s[i];
  }

  // One more column in keep adds its value, if it is among the columns.
  lemma {:induction false} PartMore(columns: seq<nat>, a: set<nat>, c: nat, x: seq<Gf>)
    requires Distinct(columns) && c !in a
    ensures Part(columns, a + {c}, x) == if c in columns then Add(Part(columns, a, x), Value(x, c)) else Part(columns, a, x)
  {
    hide Value, Add, Distinct;
    if columns != [] {
      var n := |columns| - 1;
      var d, front := columns[n], columns[..n];
      DistinctFront(columns);
      assert columns == front + [d];
      PartMore(front, a, c, x);
      var s, v := Part(front, a, x), If(d in a, Value(x, d));
      if c == d {
        PartSame(front, a + {c}, a, x, x);
        AddZero(s);
      } else if c in front {
        AddAssoc(s, Value(x, c), v);
        AddComm(Value(x, c), v);
        AddAssoc(s, v, Value(x, c));
      }
    }
  }

  lemma PartLess(columns: seq<nat>, a: set<nat>, c: nat, x: seq<Gf>)
    requires Distinct(columns) && c in a
    ensures Part(columns, a, x) == if c in columns then Add(Part(columns, a - {c}, x), Value(x, c)) else Part(columns, a - {c}, x)
  {
    assert a - {c} + {c} == a;
    PartMore(columns, a - {c}, c, x);
  }

  // Just one of the columns is in keep.
  lemma PartOne(columns: seq<nat>, a: set<nat>, c: nat, x: seq<Gf>)
    requires Distinct(columns) && c in columns && c in a && forall d :: d in columns && d in a ==> d == c
    ensures Part(columns, a, x) == Value(x, c)
  {
    hide Value, Add, Distinct;
    PartLess(columns, a, c, x);
    PartNone(columns, a - {c}, x);
    AddZero(Value(x, c));
  }

  // The deferred columns' bits of a row sum up its deferred columns.
  lemma {:induction false} DeferredSum(columns: seq<nat>, deferred: seq<nat>, bits: seq<bool>, x: seq<Gf>, y: seq<Gf>, k: nat)
    requires Distinct(columns) && Distinct(deferred) && k <= |deferred| && |deferred| <= |bits| && |deferred| <= |y|
    requires forall j :: 0 <= j < |deferred| ==> bits[j] == (deferred[j] in columns) && y[j] == Value(x, deferred[j])
    ensures SumTo(bits, y, k) == Part(columns, Elements(deferred[..k]), x)
  {
    hide Value, Add, Distinct;
    if k == 0 {
      PartNone(columns, Elements(deferred[..0]), x);
    } else {
      DeferredSum(columns, deferred, bits, x, y, k - 1);
      var c := deferred[k - 1];
      NextElement(deferred, k - 1);
      PartMore(columns, Elements(deferred[..k - 1]), c, x);
      AddZero(SumTo(bits, y, k - 1));
    }
  }

  lemma NextElement(s: seq<nat>, k: nat)
    requires Distinct(s) && k < |s|
    ensures s[k] !in Elements(s[..k]) && Elements(s[..k + 1]) == Elements(s[..k]) + {s[k]}
  {
    assert s[..k + 1] == s[..k] + [s[k]];
  }

  lemma PartEmpty(columns: seq<nat>, keep: set<nat>, x: seq<Gf>)
    ensures columns[..0] == [] && Part(columns[..0], keep, x) == ZERO
  {}

  lemma PartSnoc(columns: seq<nat>, i: nat, keep: set<nat>, x: seq<Gf>)
    requires i < |columns|
    ensures var s, c := Part(columns[..i], keep, x), columns[i];
            Part(columns[..i + 1], keep, x) == if c in keep then Add(s, if c < |x| then x[c] else ZERO) else s
  {
    hide Add;
    var more := columns[..i + 1];
    assert more[..i] == columns[..i] && more[i] == columns[i];
    AddZero(Part(columns[..i], keep, x));
  }
}

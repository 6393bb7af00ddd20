// What several modules need of options, sequences and sets.
module Collections {
  datatype Option<T> = None | Some(value: T)

  ghost predicate Distinct<T>(s: seq<T>) {
    forall i, j :: 0 <= i < j < |s| ==> s[i] != s[j]
  }

  ghost function Elements(s: seq<nat>): (r: set<nat>)
    ensures forall y: nat :: y in r <==> y in s
  {
    set y | y in s
  }

  lemma {:induction false} DistinctSize(s: seq<nat>)
    requires Distinct(s)
    ensures |Elements(s)| == |s|
  {
    if |s| > 0 {
      var t := s[1..];
      DistinctSize(t);
      assert Elements(s) == {s[0]} + Elements(t);
      assert s[0] !in Elements(t);
    }
  }

  ghost function Range(n: nat): (r: set<nat>)
    ensures |r| == n && forall y: nat :: y in r <==> y < n
  {
    if n == 0 then {} else Range(n - 1) + {n - 1}
  }

  lemma {:induction false} SubsetSize<T>(s: set<T>, t: set<T>)
    requires s <= t
    ensures |s| <= |t|
  {
    if s != {} {
      var y :| y in s;
      SubsetSize(s - {y}, t - {y});
    }
  }

  lemma SubsetFills<T>(s: set<T>, t: set<T>)
    requires s <= t && |s| == |t|
    ensures s == t
  {
    if s != t {
      var y :| y in t && y !in s;
      assert s + {y} <= t;
      SubsetSize(s + {y}, t);
    }
  }

  // Pigeonholes: that many distinct numbers below n are all of them.
  lemma Fills(s: seq<nat>, n: nat)
    requires Distinct(s) && |s| == n && forall y :: y in s ==> y < n
    ensures Elements(s) == Range(n)
  {
    DistinctSize(s);
    SubsetFills(Elements(s), Range(n));
  }
}

/** Counting arguments: a sequence over a finite set that is longer than the set repeats an element. */
module Pigeonhole {
  predicate Distinct<T(==)>(s: seq<T>) {
    forall i, j | 0 <= i < j < |s| :: s[i] != s[j]
  }

  /** A duplicate-free sequence over `pool` is no longer than `pool`, and covers it when it is as long. */
  lemma {:induction false} DistinctFits<T>(s: seq<T>, pool: set<T>)
    requires Distinct(s) && forall i | 0 <= i < |s| :: s[i] in pool
    ensures |s| <= |pool|
    ensures |s| == |pool| ==> forall x | x in pool :: x in s
  {
    if s != [] {
      var last := s[|s| - 1];
      DistinctFits(s[..|s| - 1], pool - {last});
      assert forall x | x in s[..|s| - 1] :: x in s;
    }
  }

  function Below(n: nat): (r: set<nat>)
    ensures forall x :: x in r <==> 0 <= x < n
  {
    if n == 0 then {} else Below(n - 1) + {n - 1}
  }

  lemma {:induction false} BelowSize(n: nat)
    ensures |Below(n)| == n
  {
    if n > 0 {
      BelowSize(n - 1);
    }
  }

  lemma DistinctBelow(s: seq<nat>, n: nat)
    requires Distinct(s) && forall i | 0 <= i < |s| :: s[i] < n
    ensures |s| <= n && (|s| == n ==> forall x: nat | x < n :: x in s)
  {
    DistinctFits(s, Below(n));
    BelowSize(n);
  }

  function Elements<T(==)>(t: seq<T>): (r: set<T>)
    ensures |r| <= |t| && (forall x | x in t :: x in r) && forall x | x in r :: x in t
  {
    if t == [] then {} else {t[0]} + Elements(t[1..])
  }

  /** What covers a duplicate-free sequence is at least as long. */
  lemma CoverIsLonger<T>(s: seq<T>, t: seq<T>)
    requires Distinct(s) && forall i | 0 <= i < |s| :: s[i] in t
    ensures |s| <= |t|
  {
    DistinctFits(s, Elements(t));
  }

  function Image<S, T>(domain: set<S>, f: S -> T): set<T> {
    set x | x in domain :: f(x)
  }

  /** An image is no larger than the domain, and as large exactly if no two elements fall together. */
  lemma {:induction false} ImageSize<S, T>(domain: set<S>, f: S -> T)
    ensures |Image(domain, f)| <= |domain|
    ensures |Image(domain, f)| == |domain| <==> forall x, y | x in domain && y in domain && f(x) == f(y) :: x == y
    decreases domain
  {
    if domain != {} {
      var z :| z in domain;
      var rest := domain - {z};
      ImageSize(rest, f);
      assert Image(domain, f) == Image(rest, f) + {f(z)};
      if f(z) in Image(rest, f) {
        var y :| y in rest && f(y) == f(z);
        assert Image(domain, f) == Image(rest, f) && y in domain && z in domain && y != z;
      } else {
        assert |Image(domain, f)| == |Image(rest, f)| + 1;
        assert forall x | x in rest :: f(x) in Image(rest, f);
      }
    } else {
      assert Image(domain, f) == {};
    }
  }
}

/** How many values a finite map takes, and how unions and subsets count. */
module Counting {
  import opened SortedTables

  ghost function Outcomes(f: map<nat, nat>): set<nat> {
    set x | x in f :: f[x]
  }

  lemma OutcomesStep(f: map<nat, nat>, x: nat)
    requires x in f
    ensures Outcomes(f) == Outcomes(f - {x}) + {f[x]}
    ensures (f - {x}).Keys == f.Keys - {x} && |f - {x}| == |f| - 1
  {
    var rest := f - {x};
    assert rest.Keys == f.Keys - {x};
    forall v | v in Outcomes(f) ensures v in Outcomes(rest) + {f[x]} {
      var y :| y in f && f[y] == v;
      assert y == x || (y in rest && rest[y] == v);
    }
    forall v | v in Outcomes(rest) ensures v in Outcomes(f) {
      var y :| y in rest && rest[y] == v;
      assert y in f && f[y] == v;
    }
  }

  lemma {:induction false} OutcomesAtMost(f: map<nat, nat>)
    ensures |Outcomes(f)| <= |f|
    decreases |f|
  {
    if f == map[] {
      assert Outcomes(f) == {};
    } else {
      var x :| x in f;
      OutcomesStep(f, x);
      hide Outcomes;
      OutcomesAtMost(f - {x});
    }
  }

  ghost predicate OneToOne(f: map<nat, nat>) {
    forall x, y :: x in f && y in f && f[x] == f[y] ==> x == y
  }

  lemma {:induction false} OutcomesExactly(f: map<nat, nat>)
    requires OneToOne(f)
    ensures |Outcomes(f)| == |f|
    decreases |f|
  {
    if f == map[] {
      assert Outcomes(f) == {};
    } else {
      var x :| x in f;
      OutcomesStep(f, x);
      assert f[x] !in Outcomes(f - {x});
      assert OneToOne(f - {x});
      hide Outcomes, OneToOne;
      OutcomesExactly(f - {x});
    }
  }

  lemma UnionCount(a: set<nat>, b: set<nat>, c: set<nat>)
    requires c <= a + b
    ensures |c| <= |a| + |b|
  {
    SubsetCount(c, a + b);
    assert a + b == a + (b - a);
    SubsetCount(b - a, b);
  }

  lemma DisjointCount(a: set<nat>, b: set<nat>, c: set<nat>)
    requires a !! b && c == a + b
    ensures |c| == |a| + |b|
  {
  }

  lemma {:induction false} DistinctCount(ps: seq<nat>)
    requires forall i, j :: 0 <= i < j < |ps| ==> ps[i] != ps[j]
    ensures |Elems(ps)| == |ps|
  {
    if ps != [] {
      var n := |ps| - 1;
      DistinctCount(ps[..n]);
      assert ps == ps[..n] + [ps[n]];
      assert Elems(ps) == Elems(ps[..n]) + {ps[n]};
    }
  }
}

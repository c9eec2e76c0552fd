/** The order archives are written in: names by code point, paths component by component. */
module TarOrder {
  import opened PathNames

  /** a comes strictly before b. */
  predicate NameBefore(a: string, b: string) {
    if b == "" then false
    else if a == "" then true
    else a[0] < b[0] || (a[0] == b[0] && NameBefore(a[1..], b[1..]))
  }

  lemma {:induction false} NameTotal(a: string, b: string)
    ensures a == b || NameBefore(a, b) || NameBefore(b, a)
  {
    if a != "" && b != "" && a[0] == b[0] {
      NameTotal(a[1..], b[1..]);
      assert a == [a[0]] + a[1..] && b == [b[0]] + b[1..];
    }
  }

  lemma {:induction false} NameStrict(a: string)
    ensures !NameBefore(a, a)
  {
    if a != "" { NameStrict(a[1..]); }
  }

  lemma {:induction false} NameTransitive(a: string, b: string, c: string)
    requires NameBefore(a, b) && NameBefore(b, c)
    ensures NameBefore(a, c)
  {
    if a != "" && a[0] == b[0] && b[0] == c[0] {
      NameTransitive(a[1..], b[1..], c[1..]);
    }
  }

  /** Component-wise order: a directory comes before what is in it. */
  predicate PathBefore(a: Path, b: Path) {
    if b == [] then false
    else if a == [] then true
    else NameBefore(a[0], b[0]) || (a[0] == b[0] && PathBefore(a[1..], b[1..]))
  }

  lemma {:induction false} PathStrict(a: Path)
    ensures !PathBefore(a, a)
  {
    if a != [] {
      NameStrict(a[0]);
      PathStrict(a[1..]);
    }
  }

  lemma {:induction false} PathTransitive(a: Path, b: Path, c: Path)
    requires PathBefore(a, b) && PathBefore(b, c)
    ensures PathBefore(a, c)
  {
    if a != [] {
      if NameBefore(a[0], b[0]) && NameBefore(b[0], c[0]) {
        NameTransitive(a[0], b[0], c[0]);
      } else if a[0] == b[0] && b[0] == c[0] {
        PathTransitive(a[1..], b[1..], c[1..]);
      }
    }
  }

  lemma {:induction false} PathTotal(a: Path, b: Path)
    ensures a == b || PathBefore(a, b) || PathBefore(b, a)
  {
    if a != [] && b != [] {
      NameTotal(a[0], b[0]);
      if a[0] == b[0] {
        PathTotal(a[1..], b[1..]);
        assert a == [a[0]] + a[1..] && b == [b[0]] + b[1..];
      }
    }
  }

  lemma {:induction false} PrefixBefore(a: Path, b: Path)
    requires a < b
    ensures PathBefore(a, b)
  {
    if a != [] {
      assert a[1..] < b[1..];
      PrefixBefore(a[1..], b[1..]);
    }
  }

  /** Below different entries of one directory the entries' names decide. */
  lemma {:induction false} SiblingsBefore(p: Path, m: string, n: string, a: Path, b: Path)
    requires NameBefore(m, n) && p + [m] <= a && p + [n] <= b
    ensures PathBefore(a, b)
  {
    if p == [] {
      assert a[0] == m && b[0] == n;
    } else {
      assert a[0] == p[0] && b[0] == p[0];
      assert p[1..] + [m] <= a[1..] && p[1..] + [n] <= b[1..];
      SiblingsBefore(p[1..], m, n, a[1..], b[1..]);
    }
  }

  // ----- sorted names -----

  predicate IsFirstName(names: set<string>, n: string) {
    n in names && forall x :: x in names && x != n ==> NameBefore(n, x)
  }

  lemma {:induction false} FirstNameExists(names: set<string>)
    requires names != {}
    ensures exists n :: n in names && IsFirstName(names, n)
    decreases |names|
  {
    var a :| a in names;
    var rest := names - {a};
    assert forall x :: x in names ==> x == a || x in rest;
    if rest == {} {
      assert IsFirstName(names, a);
    } else {
      FirstNameExists(rest);
      var b :| b in rest && IsFirstName(rest, b);
      NameTotal(a, b);
      if NameBefore(b, a) {
        assert IsFirstName(names, b);
      } else {
        forall x | x in names && x != a ensures NameBefore(a, x) {
          if x != b { NameTransitive(a, b, x); }
        }
        assert IsFirstName(names, a);
      }
    }
  }

  function FirstName(names: set<string>): (n: string)
    requires names != {}
    ensures IsFirstName(names, n)
  {
    FirstNameExists(names);
    FirstNameUnique(names);
    var n :| n in names && IsFirstName(names, n);
    n
  }

  lemma FirstNameUnique(names: set<string>)
    ensures forall m, n :: IsFirstName(names, m) && IsFirstName(names, n) ==> m == n
  {
    forall m, n | IsFirstName(names, m) && IsFirstName(names, n) ensures m == n {
      if m != n {
        NameTransitive(m, n, m);
        NameStrict(m);
      }
    }
  }

  predicate NamesSorted(ns: seq<string>) {
    forall i, j :: 0 <= i < j < |ns| ==> NameBefore(ns[i], ns[j])
  }

  /** The names in the order they are written in. */
  function SortedNames(names: set<string>): (ns: seq<string>)
    ensures NamesSorted(ns)
    ensures forall n :: n in ns <==> n in names
    decreases |names|
  {
    if names == {} then [] else
      var n := FirstName(names);
      var rest := SortedNames(names - {n});
      assert forall i :: 0 <= i < |rest| ==> rest[i] in rest;
      [n] + rest
  }
}

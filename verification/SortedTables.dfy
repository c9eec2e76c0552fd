/** Tables with integer keys, read by a cursor in ascending key order. */
module SortedTables {

  predicate IsFirst(keys: set<nat>, k: nat) {
    k in keys && forall x :: x in keys ==> k <= x
  }

  /** The key a fresh cursor stands on. */
  function FirstKey(keys: set<nat>): (k: nat)
    requires keys != {}
    ensures IsFirst(keys, k)
  {
    var start :| start in keys;
    FirstKeyExists(keys, start);
    var k :| k in keys && IsFirst(keys, k);
    k
  }

  lemma {:induction false} FirstKeyExists(keys: set<nat>, k: nat)
    requires k in keys
    ensures exists m :: m in keys && IsFirst(keys, m)
    decreases k
  {
    if !IsFirst(keys, k) {
      var x :| x in keys && x < k;
      FirstKeyExists(keys, x);
    }
  }

  predicate Ascending(s: seq<nat>) {
    forall i, j :: 0 <= i < j < |s| ==> s[i] < s[j]
  }

  function Elems(s: seq<nat>): set<nat> {
    set x | x in s
  }

  /** The order in which a cursor visits the keys. */
  function CursorOrder(keys: set<nat>): (s: seq<nat>)
    ensures Ascending(s)
    ensures forall x :: x in s <==> x in keys
    decreases |keys|
  {
    if keys == {} then [] else
      var k := FirstKey(keys);
      [k] + CursorOrder(keys - {k})
  }

  /** An ascending sequence has as many elements as entries. */
  lemma {:induction false} AscendingCount(s: seq<nat>)
    requires Ascending(s)
    ensures |Elems(s)| == |s|
  {
    if s != [] {
      var n := |s| - 1;
      AscendingCount(s[..n]);
      assert s == s[..n] + [s[n]];
      assert Elems(s) == Elems(s[..n]) + {s[n]};
      assert s[n] !in Elems(s[..n]);
    }
  }

  lemma {:induction false} SubsetCount<T>(a: set<T>, b: set<T>)
    requires a <= b
    ensures |a| <= |b|
    ensures |a| == |b| ==> a == b
  {
    assert b == a + (b - a);
    assert |b| == |a| + |b - a|;
  }

  /** Two ascending sequences with the same elements are the same sequence. */
  lemma {:induction false} AscendingUnique(a: seq<nat>, b: seq<nat>)
    requires Ascending(a) && Ascending(b)
    requires Elems(a) == Elems(b)
    ensures a == b
  {
    if |b| > 0 {
      assert b[0] in Elems(b);
      assert b[0] in a;
    }
    if |a| > 0 {
      assert a[0] in Elems(a);
      assert a[0] in b;
      assert a[0] == b[0];
      assert Elems(a[1..]) == Elems(a) - {a[0]};
      assert Elems(b[1..]) == Elems(b) - {b[0]};
      AscendingUnique(a[1..], b[1..]);
      assert a == [a[0]] + a[1..] && b == [b[0]] + b[1..];
    }
  }

  /** The numbers 0, 1, ..., hi-1. */
  ghost function Below(hi: nat): (s: set<nat>)
    ensures forall x: nat :: x in s <==> x < hi
    ensures |s| == hi
  {
    if hi == 0 then {} else Below(hi - 1) + {hi - 1}
  }
}

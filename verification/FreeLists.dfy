/** The free list: a table from the first word of a free range to the range's length, and the
    allocator that takes words off its front. */
module FreeLists {
  import opened Basics
  import opened SortedTables

  type FreeList = map<nat, nat>

  ghost predicate Covered(f: FreeList, w: nat) {
    exists k: nat :: k in f && k <= w < k + f[k]
  }

  ghost predicate AreWords(f: FreeList, s: set<nat>) {
    forall w: nat :: w in s <==> Covered(f, w)
  }

  /** Every word some range covers: the plain set the list stands for. */
  ghost function Words(f: FreeList): set<nat> {
    WordsExist(f);
    var s :| AreWords(f, s);
    s
  }

  lemma {:induction false} WordsExist(f: FreeList)
    ensures exists s :: AreWords(f, s)
    decreases |f|
  {
    if f == map[] {
      assert AreWords(f, {});
    } else {
      var k: nat :| k in f;
      var rest: FreeList := f - {k};
      assert rest.Keys == f.Keys - {k};
      CoveredStep(f, k);
      WordsExist(rest);
      var s :| AreWords(rest, s);
      assert AreWords(f, Span(k, f[k]) + s);
    }
  }

  ghost function Span(start: nat, len: nat): (s: set<nat>)
    ensures forall w: nat :: w in s <==> start <= w < start + len
    ensures |s| == len
  {
    if len == 0 then {} else Span(start, len - 1) + {start + len - 1}
  }

  /** One range more or less changes the covered words by exactly that range. */
  lemma CoveredStep(f: FreeList, k: nat)
    requires k in f
    ensures forall w: nat :: Covered(f, w) <==> Covered(f - {k}, w) || k <= w < k + f[k]
  {
    var rest: FreeList := f - {k};
    forall w: nat ensures Covered(f, w) <==> Covered(rest, w) || k <= w < k + f[k] {
      if Covered(f, w) {
        var j: nat :| j in f && j <= w < j + f[j];
        assert j == k || (j in rest && j <= w < j + rest[j]);
      }
      if Covered(rest, w) {
        var j: nat :| j in rest && j <= w < j + rest[j];
        assert j in f && j <= w < j + f[j];
      }
    }
  }

  /** No range is empty and no two ranges meet. */
  ghost predicate Disjoint(f: FreeList) {
    && (forall k :: k in f ==> f[k] > 0)
    && (forall a, b :: a in f && b in f && a < b ==> a + f[a] <= b)
  }

  function Consecutive(start: nat, len: nat): (s: seq<nat>)
    ensures |s| == len
    ensures forall i :: 0 <= i < len ==> s[i] == start + i
  {
    seq(len, i => start + i)
  }

  /** Takes `count` words off the front of the list; None when the list runs out. */
  function Alloc(f: FreeList, count: nat): (r: Option<(seq<nat>, FreeList)>)
    ensures r.Some? ==> |r.value.0| == count
    decreases |f|
  {
    if count == 0 then Some(([], f))
    else if f == map[] then None
    else
      var k := FirstKey(f.Keys);
      var rest: FreeList := f - {k};
      if f[k] > count then
        var left: FreeList := rest[k + count := f[k] - count];
        Some((Consecutive(k, count), left))
      else
        assert rest.Keys == f.Keys - {k};
        match Alloc(rest, count - f[k])
        case None => None
        case Some((words, left)) => Some((Consecutive(k, f[k]) + words, left))
  }

  /** Puts words back, each as a range of its own. */
  function PutBack(f: FreeList, words: set<nat>): FreeList {
    f + (map w | w in words :: 1)
  }

  /** What a caller may know about an allocation without knowing the list: `taken` are the
      |taken| smallest words of `before`, in ascending order, and `after` is what is left. */
  ghost predicate TakesSmallest(before: set<nat>, taken: seq<nat>, after: set<nat>) {
    && Ascending(taken)
    && Elems(taken) <= before
    && after == before - Elems(taken)
    && forall x, y :: x in taken && y in after ==> x < y
  }

  /** Removing the first range leaves a disjoint list of the words past that range. */
  lemma FirstRange(f: FreeList, k: nat)
    requires Disjoint(f) && f != map[] && k == FirstKey(f.Keys)
    ensures Disjoint(f - {k})
    ensures forall w: nat :: w in Words(f) <==> k <= w < k + f[k] || w in Words(f - {k})
    ensures forall w: nat :: w in Words(f - {k}) ==> k + f[k] <= w
  {
    CoveredStep(f, k);
  }

  /** Entering a range none of whose words is covered yet. */
  lemma PutRange(f: FreeList, start: nat, len: nat)
    requires Disjoint(f) && len > 0
    requires forall w: nat :: start <= w < start + len ==> w !in Words(f)
    ensures Disjoint(f[start := len])
    ensures forall w: nat :: w in Words(f[start := len]) <==> w in Words(f) || start <= w < start + len
  {
    var g: FreeList := f[start := len];
    assert start !in Words(f);
    forall k: nat | k in f ensures k + f[k] <= start || start + len <= k {
      assert k in Words(f);
    }
    assert g - {start} == f;
    CoveredStep(g, start);
  }

  /** Splitting the first range leaves exactly the words past the split. */
  lemma SplitFirst(f: FreeList, k: nat, count: nat)
    requires Disjoint(f) && f != map[] && k == FirstKey(f.Keys) && count < f[k]
    ensures
      var left: FreeList := (f - {k})[k + count := f[k] - count];
      Disjoint(left) && forall w: nat :: w in Words(left) <==> w in Words(f) && k + count <= w
  {
    FirstRange(f, k);
    PutRange(f - {k}, k + count, f[k] - count);
  }

  /** A request for `count` words was served as a plain set would serve it: refused exactly when
      too few words are free, and otherwise given the `count` smallest. */
  ghost predicate Served(f: FreeList, count: nat, r: Option<(seq<nat>, FreeList)>) {
    match r
    case None => |Words(f)| < count
    case Some((words, left)) =>
      |words| == count && Disjoint(left) && TakesSmallest(Words(f), words, Words(left))
  }

  /** The allocator refines a plain set, however the set is cut into ranges. */
  lemma {:induction false} AllocTakesSmallest(f: FreeList, count: nat)
    requires Disjoint(f)
    ensures Served(f, count, Alloc(f, count))
    decreases |f|
  {
    hide Served, Disjoint, Words, Alloc;
    if count == 0 || f == map[] {
      TakeNothing(f, count);
    } else {
      var k := FirstKey(f.Keys);
      if f[k] > count {
        TakeWithinFirst(f, k, count);
      } else {
        assert (f - {k}).Keys == f.Keys - {k};
        FirstRange(f, k);
        AllocTakesSmallest(f - {k}, count - f[k]);
        TakeFirstRange(f, k, count);
      }
    }
  }

  lemma TakeNothing(f: FreeList, count: nat)
    requires Disjoint(f) && (count == 0 || f == map[])
    ensures Served(f, count, Alloc(f, count))
  {
    assert f == map[] ==> Words(f) == {};
  }

  lemma TakeWithinFirst(f: FreeList, k: nat, count: nat)
    requires Disjoint(f) && f != map[] && k == FirstKey(f.Keys) && 0 < count < f[k]
    ensures Served(f, count, Alloc(f, count))
  {
    TakeFromFirst(f, k, count);
  }

  lemma TakeFirstRange(f: FreeList, k: nat, count: nat)
    requires Disjoint(f) && f != map[] && k == FirstKey(f.Keys) && f[k] <= count && count > 0
    requires Served(f - {k}, count - f[k], Alloc(f - {k}, count - f[k]))
    ensures Served(f, count, Alloc(f, count))
  {
    var r := Alloc(f - {k}, count - f[k]);
    FirstRangeCount(f, k);
    assert Alloc(f, count) ==
      match r { case None => None case Some((words, left)) => Some((Consecutive(k, f[k]) + words, left)) };
    hide Alloc, Words, Covered, Consecutive;
    if r.Some? {
      ServedAfter(f, k, count, r.value.0, r.value.1);
    }
  }

  lemma ServedAfter(f: FreeList, k: nat, count: nat, words: seq<nat>, left: FreeList)
    requires Disjoint(f) && f != map[] && k == FirstKey(f.Keys) && f[k] <= count
    requires Served(f - {k}, count - f[k], Some((words, left)))
    ensures Served(f, count, Some((Consecutive(k, f[k]) + words, left)))
  {
    FirstRangeCount(f, k);
    FirstRange(f, k);
    hide Words, Covered, Consecutive;
    TakeAfterRun(f[k], k, Words(f), Words(f - {k}), words, Words(left));
  }

  /** Some words were handed out, so enough were free. */
  lemma ServedEnough(f: FreeList, count: nat, r: Option<(seq<nat>, FreeList)>)
    requires Served(f, count, r)
    ensures r.Some? <==> count <= |Words(f)|
  {
    if r.Some? {
      AscendingCount(r.value.0);
      SubsetCount(Elems(r.value.0), Words(f));
    }
  }

  lemma FirstRangeCount(f: FreeList, k: nat)
    requires Disjoint(f) && f != map[] && k == FirstKey(f.Keys)
    ensures |Words(f)| == f[k] + |Words(f - {k})|
  {
    FirstRange(f, k);
    assert Words(f) == Span(k, f[k]) + Words(f - {k});
  }

  lemma TakeFromFirst(f: FreeList, k: nat, count: nat)
    requires Disjoint(f) && f != map[] && k == FirstKey(f.Keys) && count < f[k]
    ensures
      var left: FreeList := (f - {k})[k + count := f[k] - count];
      Disjoint(left) && TakesSmallest(Words(f), Consecutive(k, count), Words(left))
  {
    SplitFirst(f, k, count);
    FirstRange(f, k);
    forall w: nat ensures w in Elems(Consecutive(k, count)) <==> k <= w < k + count {
      if k <= w < k + count { assert Consecutive(k, count)[w - k] == w; }
    }
  }

  lemma TakeAfterRun(len: nat, k: nat, before: set<nat>, more: set<nat>, words: seq<nat>, after: set<nat>)
    requires TakesSmallest(more, words, after)
    requires forall w: nat :: w in before <==> k <= w < k + len || w in more
    requires forall w :: w in more ==> k + len <= w
    ensures TakesSmallest(before, Consecutive(k, len) + words, after)
  {
    var all := Consecutive(k, len) + words;
    forall x: nat ensures x in Elems(all) <==> k <= x < k + len || x in Elems(words) {
      if k <= x < k + len { assert all[x - k] == x; }
      if x in Elems(words) { var i :| 0 <= i < |words| && words[i] == x; assert all[len + i] == x; }
    }
    assert forall i :: 0 <= i < |words| ==> words[i] in Elems(words);
    forall x, y | x in all && y in after ensures x < y {
      assert x in Elems(all) && y in more;
      assert x in Elems(words) ==> x in words;
    }
  }

  /** What is taken, and what is left, depend only on the set of free words. */
  lemma TakesSmallestUnique(before: set<nat>, a: seq<nat>, aLeft: set<nat>, b: seq<nat>, bLeft: set<nat>)
    requires TakesSmallest(before, a, aLeft) && TakesSmallest(before, b, bLeft) && |a| == |b|
    ensures a == b && aLeft == bLeft
  {
    AscendingCount(a);
    AscendingCount(b);
    if Elems(a) <= Elems(b) {
      SubsetCount(Elems(a), Elems(b));
    } else {
      var x :| x in Elems(a) && x !in Elems(b);
      assert x in bLeft;
      forall y | y in Elems(b) ensures y in Elems(a) {
        assert y in b && y < x;
        assert x in a && (y in Elems(a) || y in aLeft);
      }
      SubsetCount(Elems(b), Elems(a));
    }
    AscendingUnique(a, b);
  }

  /** Two lists that cut the same set of words differently serve every request alike. */
  lemma FragmentationIrrelevant(f: FreeList, g: FreeList, count: nat)
    requires Disjoint(f) && Disjoint(g) && Words(f) == Words(g)
    ensures Alloc(f, count).None? <==> Alloc(g, count).None?
    ensures Alloc(f, count).Some? ==>
      Alloc(f, count).value.0 == Alloc(g, count).value.0
      && Words(Alloc(f, count).value.1) == Words(Alloc(g, count).value.1)
  {
    AllocTakesSmallest(f, count);
    AllocTakesSmallest(g, count);
    ServedEnough(f, count, Alloc(f, count));
    ServedEnough(g, count, Alloc(g, count));
    if count <= |Words(f)| {
      var (a, aLeft) := Alloc(f, count).value;
      var (b, bLeft) := Alloc(g, count).value;
      TakesSmallestUnique(Words(f), a, Words(aLeft), b, Words(bLeft));
    }
  }

  lemma PutBackDisjoint(f: FreeList, words: set<nat>)
    requires Disjoint(f) && words !! Words(f)
    ensures Disjoint(PutBack(f, words)) && f.Keys !! words
  {
    forall k: nat, w: nat | k in f && w in words ensures w < k || k + f[k] <= w {
      assert w !in Words(f);
    }
    assert f.Keys !! words;
  }

  /** Putting words back that are not free adds exactly those words. */
  lemma PutBackAdds(f: FreeList, words: set<nat>)
    requires Disjoint(f) && words !! Words(f)
    ensures Disjoint(PutBack(f, words))
    ensures forall x: nat :: x in Words(PutBack(f, words)) <==> x in Words(f) || x in words
  {
    hide Disjoint, Covered, PutBack;
    PutBackDisjoint(f, words);
    forall x: nat ensures x in Words(PutBack(f, words)) <==> x in Words(f) || x in words {
      PutBackCovers(f, words, x);
    }
  }

  lemma PutBackCovers(f: FreeList, words: set<nat>, x: nat)
    requires f.Keys !! words
    ensures Covered(PutBack(f, words), x) <==> Covered(f, x) || x in words
  {
    var g := PutBack(f, words);
    if Covered(f, x) {
      var k: nat :| k in f && k <= x < k + f[k];
      assert k in g && k <= x < k + g[k];
    }
    if x in words { assert x in g && x <= x < x + g[x]; }
    if Covered(g, x) {
      var k: nat :| k in g && k <= x < k + g[k];
      assert k in words || (k in f && k <= x < k + f[k]);
    }
  }

  /** The word lies in a range of more than one word. */
  ghost predicate Spread(f: FreeList, w: nat) {
    exists k: nat :: k in f && f[k] > 1 && k <= w < k + f[k]
  }

  lemma SpreadIsWord(f: FreeList, w: nat)
    ensures Spread(f, w) ==> w in Words(f)
  {
  }

  /** Putting back a word that already is a range of its own changes nothing. */
  lemma PutBackAgain(f: FreeList, words: set<nat>)
    requires Disjoint(f) && forall w :: w in words ==> !Spread(f, w)
    ensures Disjoint(PutBack(f, words))
    ensures forall x: nat :: x in Words(PutBack(f, words)) <==> x in Words(f) || x in words
    ensures forall x: nat :: Spread(PutBack(f, words), x) ==> Spread(f, x)
  {
    PutBackNew(f, words);
    PutBackAdds(f, words - Words(f));
    forall x: nat | Spread(PutBack(f, words), x) ensures Spread(f, x) {
      PutBackSpread(f, words, x);
    }
  }

  lemma PutBackNew(f: FreeList, words: set<nat>)
    requires forall w :: w in words ==> !Spread(f, w)
    ensures PutBack(f, words) == PutBack(f, words - Words(f))
  {
    forall w: nat | w in words && w in Words(f) ensures w in f && f[w] == 1 {
      var k: nat :| k in f && k <= w < k + f[k];
      assert k == w;
    }
  }

  lemma PutBackSpread(f: FreeList, words: set<nat>, x: nat)
    requires Spread(PutBack(f, words), x)
    ensures Spread(f, x)
  {
    var g := PutBack(f, words);
    var k: nat :| k in g && g[k] > 1 && k <= x < k + g[k];
    assert k !in words && f[k] == g[k];
  }

  lemma {:induction false} AllocSpread(f: FreeList, count: nat, x: nat)
    requires Alloc(f, count).Some? && Spread(Alloc(f, count).value.1, x)
    ensures Spread(f, x)
    decreases |f|
  {
    if count != 0 {
      var k := FirstKey(f.Keys);
      var rest: FreeList := f - {k};
      if f[k] > count {
        var left := Alloc(f, count).value.1;
        assert left == rest[k + count := f[k] - count];
        var j: nat :| j in left && left[j] > 1 && j <= x < j + left[j];
        assert j == k + count || (j in f && f[j] == left[j]);
      } else {
        assert rest.Keys == f.Keys - {k};
        AllocSpread(rest, count - f[k], x);
        var j: nat :| j in rest && rest[j] > 1 && j <= x < j + rest[j];
        assert j in f && f[j] == rest[j];
      }
    }
  }

  /** Returning everything that was allocated restores the set of free words. */
  lemma AllocThenPutBack(f: FreeList, count: nat)
    requires Disjoint(f) && count <= |Words(f)|
    ensures Alloc(f, count).Some?
    ensures
      var (words, left) := Alloc(f, count).value;
      var back := PutBack(left, Elems(words));
      Disjoint(back) && Words(back) == Words(f)
  {
    AllocTakesSmallest(f, count);
    ServedEnough(f, count, Alloc(f, count));
    var (words, left) := Alloc(f, count).value;
    PutBackAdds(left, Elems(words));
  }
}

/** Writing a file system as an archive: which entries come out and in which order, and what reading
    the archive back yields. */
module TarArchive {
  import opened Basics
  import opened PathNames
  import opened LayerMap
  import opened TarOrder

  type Item = (Path, Entry)

  function Children(m: FlatFs, p: Path): set<string> {
    set q | q in m && q != [] && Parent(q) == p :: q[|q| - 1]
  }

  lemma ChildrenAre(m: FlatFs, p: Path, n: string)
    ensures n in Children(m, p) <==> p + [n] in m
  {
    if p + [n] in m { assert Parent(p + [n]) == p && (p + [n])[|p|] == n; }
    if n in Children(m, p) {
      var q :| q in m && q != [] && Parent(q) == p && q[|q| - 1] == n;
      assert q == p + [n];
    }
  }

  ghost function Strictly(m: FlatFs, p: Path): set<Path> {
    set q | q in m && p < q
  }

  lemma FewerBelow(m: FlatFs, p: Path, q: Path)
    requires q in m && p < q
    ensures |Strictly(m, q)| < |Strictly(m, p)|
  {
    assert Strictly(m, q) <= Strictly(m, p) - {q};
    assert q in Strictly(m, p);
    SubsetSize(Strictly(m, q), Strictly(m, p) - {q});
  }

  lemma SubsetSize<T>(a: set<T>, b: set<T>)
    requires a <= b
    ensures |a| <= |b|
  {
    assert b == a + (b - a);
  }

  /** Everything in a directory: each entry, followed by what is in it, by name. */
  function ListDir(m: FlatFs, p: Path): seq<Item>
    decreases |Strictly(m, p)|, 1, 0
  {
    var names := SortedNames(Children(m, p));
    assert forall n :: n in names ==> p + [n] in m by {
      forall n | n in names ensures p + [n] in m { ChildrenAre(m, p, n); }
    }
    ListNames(m, p, names)
  }

  function ListNames(m: FlatFs, p: Path, names: seq<string>): seq<Item>
    requires forall n :: n in names ==> p + [n] in m
    decreases |Strictly(m, p)|, 0, |names|
  {
    if names == [] then [] else
      var q := p + [names[0]];
      FewerBelow(m, p, q);
      [(q, m[q])] + (if m[q].Dir? then ListDir(m, q) else []) + ListNames(m, p, names[1..])
  }

  /** An archive lists every path but the root exactly once, with its entry, in path order. */
  ghost predicate Listing(m: FlatFs, items: seq<Item>) {
    && InOrder(items)
    && (forall i :: 0 <= i < |items| ==> items[i].0 in m && items[i].0 != [] && items[i].1 == m[items[i].0])
    && (forall q :: q in m && q != [] ==> Lists(items, q))
  }

  ghost predicate InOrder(items: seq<Item>) {
    forall i, j :: 0 <= i < j < |items| ==> PathBefore(items[i].0, items[j].0)
  }

  ghost predicate Lists(items: seq<Item>, q: Path) {
    exists i :: 0 <= i < |items| && items[i].0 == q
  }

  // ----- the archive is the listing -----

  /** The items are the paths at or below p + [n] for the given names n, in order. */
  ghost predicate Covers(m: FlatFs, p: Path, names: seq<string>, items: seq<Item>) {
    && InOrder(items)
    && (forall i :: 0 <= i < |items| ==>
          items[i].0 in m && items[i].1 == m[items[i].0] && UnderSome(p, names, items[i].0))
    && (forall q :: q in m && UnderSome(p, names, q) ==> Lists(items, q))
  }

  predicate UnderSome(p: Path, names: seq<string>, q: Path) {
    p < q && q[|p|] in names
  }

  lemma UnderChild(p: Path, n: string, q: Path)
    ensures p + [n] <= q <==> p < q && q[|p|] == n
  {
    if p < q && q[|p|] == n {
      assert q[..|p| + 1] == p + [n];
    }
  }

  lemma {:induction false} ListNamesCovers(m: FlatFs, p: Path, names: seq<string>)
    requires WellFormed(m) && NamesSorted(names) && forall n :: n in names ==> p + [n] in m
    ensures Covers(m, p, names, ListNames(m, p, names))
    decreases |Strictly(m, p)|, 0, |names|
  {
    if names != [] {
      var n, more := names[0], names[1..];
      var q := p + [n];
      FewerBelow(m, p, q);
      ListNamesCovers(m, p, more);
      if m[q].Dir? {
        ListDirCovers(m, q);
      } else {
        NothingBelow(m, q);
      }
      var inner: seq<Item> := if m[q].Dir? then ListDir(m, q) else [];
      JoinCovers(m, p, names, inner, ListNames(m, p, more));
    }
  }

  /** The items are the paths strictly below p, in order. */
  ghost predicate CoversBelow(m: FlatFs, p: Path, items: seq<Item>) {
    && InOrder(items)
    && (forall i :: 0 <= i < |items| ==> items[i].0 in m && items[i].1 == m[items[i].0] && p < items[i].0)
    && (forall q :: q in m && p < q ==> Lists(items, q))
  }

  lemma {:induction false} ListDirCovers(m: FlatFs, p: Path)
    requires WellFormed(m)
    ensures CoversBelow(m, p, ListDir(m, p))
    decreases |Strictly(m, p)|, 1, 0
  {
    var names := SortedNames(Children(m, p));
    forall n | n in names ensures p + [n] in m { ChildrenAre(m, p, n); }
    ListNamesCovers(m, p, names);
    forall q | q in m && p < q ensures UnderSome(p, names, q) {
      PrefixesPresent(m, p + [q[|p|]], q) by { UnderChild(p, q[|p|], q); }
      ChildrenAre(m, p, q[|p|]);
    }
  }

  lemma NothingBelow(m: FlatFs, q: Path)
    requires WellFormed(m) && q in m && !m[q].Dir?
    ensures CoversBelow(m, q, [])
  {
    forall r | r in m ensures !(q < r) {
      if q < r { PrefixesPresent(m, q, r); }
    }
  }

  lemma JoinInOrder(m: FlatFs, p: Path, names: seq<string>, head: seq<Item>, more: seq<Item>)
    requires names != [] && NamesSorted(names) && Covers(m, p, names[1..], more) && InOrder(head)
    requires forall i :: 0 <= i < |head| ==> p + [names[0]] <= head[i].0
    ensures InOrder(head + more)
  {
    hide PathBefore, NamesSorted;
    var all := head + more;
    forall i, j | 0 <= i < j < |all| ensures PathBefore(all[i].0, all[j].0) {
      if i < |head| <= j {
        BeforeMore(m, p, names, more, head[i].0, j - |head|);
      }
    }
  }

  lemma JoinListed(m: FlatFs, p: Path, names: seq<string>, inner: seq<Item>, more: seq<Item>, r: Path)
    requires names != [] && p + [names[0]] in m && r in m && UnderSome(p, names, r)
    requires CoversBelow(m, p + [names[0]], inner) && Covers(m, p, names[1..], more)
    ensures var q := p + [names[0]]; Lists([(q, m[q])] + inner + more, r)
  {
    hide InOrder;
    var q := p + [names[0]];
    var all := [(q, m[q])] + inner + more;
    UnderChild(p, names[0], r);
    if r == q {
      assert all[0].0 == r;
    } else if q < r {
      var i :| 0 <= i < |inner| && inner[i].0 == r;
      assert all[i + 1].0 == r;
    } else {
      assert UnderSome(p, names[1..], r);
      var i :| 0 <= i < |more| && more[i].0 == r;
      assert all[1 + |inner| + i].0 == r;
    }
  }

  /** One entry, what is below it, and the entries after it. */
  lemma JoinCovers(m: FlatFs, p: Path, names: seq<string>, inner: seq<Item>, more: seq<Item>)
    requires names != [] && NamesSorted(names) && p + [names[0]] in m
    requires CoversBelow(m, p + [names[0]], inner) && Covers(m, p, names[1..], more)
    ensures var q := p + [names[0]]; Covers(m, p, names, [(q, m[q])] + inner + more)
  {
    var q := p + [names[0]];
    var head := [(q, m[q])] + inner;
    var all := head + more;
    HeadInOrder(m, q, inner);
    JoinInOrder(m, p, names, head, more);
    hide InOrder, Lists, NamesSorted;
    forall i | 0 <= i < |all|
      ensures all[i].0 in m && all[i].1 == m[all[i].0] && UnderSome(p, names, all[i].0)
    {
      if i < |head| {
        UnderChild(p, names[0], head[i].0);
      }
    }
    forall r | r in m && UnderSome(p, names, r) ensures Lists(all, r) {
      JoinListed(m, p, names, inner, more, r);
    }
  }


  lemma HeadInOrder(m: FlatFs, q: Path, inner: seq<Item>)
    requires q in m && CoversBelow(m, q, inner)
    ensures InOrder([(q, m[q])] + inner)
  {
    var head := [(q, m[q])] + inner;
    forall i, j | 0 <= i < j < |head| ensures PathBefore(head[i].0, head[j].0) {
      assert head[j] == inner[j - 1];
      if i == 0 {
        PrefixBefore(q, inner[j - 1].0);
      } else {
        assert head[i] == inner[i - 1];
      }
    }
  }

  lemma BeforeMore(m: FlatFs, p: Path, names: seq<string>, more: seq<Item>, r: Path, j: nat)
    requires names != [] && NamesSorted(names) && Covers(m, p, names[1..], more) && j < |more|
    requires p + [names[0]] <= r
    ensures PathBefore(r, more[j].0)
  {
    var x := more[j].0;
    assert UnderSome(p, names[1..], x);
    var k :| 0 <= k < |names[1..]| && names[1..][k] == x[|p|];
    assert NameBefore(names[0], names[k + 1]);
    UnderChild(p, x[|p|], x);
    SiblingsBefore(p, names[0], x[|p|], r, x);
  }

  /** The archive written from the root is the listing of the map. */
  lemma ArchiveIsListing(m: FlatFs)
    requires WellFormed(m)
    ensures Listing(m, ListDir(m, []))
  {
    hide WellFormed;
    ListDirCovers(m, []);
  }

  /** There is only one listing, so an archive depends on the map alone and not on how it came about. */
  lemma ListingUnique(m: FlatFs, a: seq<Item>, b: seq<Item>)
    requires Listing(m, a) && Listing(m, b)
    ensures a == b
  {
    ListingItems(m, a);
    ListingItems(m, b);
    hide Listing;
    SortedUnique(a, b);
  }

  lemma ListingItems(m: FlatFs, a: seq<Item>)
    requires Listing(m, a)
    ensures InOrder(a)
    ensures forall x: Item :: x in a <==> x.0 in m && x.0 != [] && x.1 == m[x.0]
  {
    forall x: Item | x.0 in m && x.0 != [] && x.1 == m[x.0] ensures x in a {
      assert Lists(a, x.0);
      var i :| 0 <= i < |a| && a[i].0 == x.0;
      assert a[i] == x;
    }
  }

  lemma {:induction false} SortedUnique(a: seq<Item>, b: seq<Item>)
    requires InOrder(a) && InOrder(b) && forall x :: x in a <==> x in b
    ensures a == b
  {
    assert |a| > 0 ==> a[0] in a;
    assert |b| > 0 ==> b[0] in b;
    if |a| > 0 && |b| > 0 {
      SameFirst(a, b);
      TailItems(a);
      TailItems(b);
      SortedUnique(a[1..], b[1..]);
      assert a == [a[0]] + a[1..] && b == [b[0]] + b[1..];
    }
  }

  lemma SameFirst(a: seq<Item>, b: seq<Item>)
    requires InOrder(a) && InOrder(b) && |a| > 0 && |b| > 0 && a[0] in b && b[0] in a
    ensures a[0] == b[0]
  {
    var i :| 0 <= i < |b| && b[i] == a[0];
    var j :| 0 <= j < |a| && a[j] == b[0];
    if i > 0 && j > 0 {
      PathTransitive(a[0].0, b[0].0, a[0].0);
      PathStrict(a[0].0);
    }
  }

  lemma TailItems(a: seq<Item>)
    requires InOrder(a) && |a| > 0
    ensures InOrder(a[1..]) && forall x :: x in a[1..] <==> x in a && x != a[0]
  {
    PathStrict(a[0].0);
    forall x | x in a[1..] ensures x in a && x != a[0] {
      var i :| 0 <= i < |a[1..]| && a[1..][i] == x;
      assert a[i + 1] == x;
    }
    forall x | x in a && x != a[0] ensures x in a[1..] {
      var i :| 0 <= i < |a| && a[i] == x;
      assert a[1..][i - 1] == x;
    }
  }

  // ----- reading an archive back -----

  function MemberOf(x: Item): Member
    requires x.0 != []
  {
    var path := Prefix(Parent(x.0)) + x.0[|x.0| - 1];
    match x.1
    case Dir(meta) => Member(path, DirType, meta, "", [])
    case Link(meta, target) => Member(path, LinkType, meta, target, [])
    case Reg(meta, contents) => Member(path, RegType, meta, "", contents)
  }

  function Members(items: seq<Item>): (es: seq<Member>)
    requires forall i :: 0 <= i < |items| ==> items[i].0 != []
    ensures |es| == |items| && forall i :: 0 <= i < |es| ==> es[i] == MemberOf(items[i])
  {
    seq(|items|, i requires 0 <= i < |items| => MemberOf(items[i]))
  }

  /** The map after the first k items: the root and what they list. */
  ghost function Replayed(m: FlatFs, items: seq<Item>, k: nat): FlatFs
    requires k <= |items| && Listing(m, items)
  {
    map q | q in m && (q == [] || Lists(items[..k], q)) :: if q == [] then ROOT_ENTRY else m[q]
  }

  lemma {:induction false} ReplayPrefix(m: FlatFs, items: seq<Item>, k: nat)
    requires WellFormed(m) && Listing(m, items) && k <= |items|
    ensures ProcessAll(EmptyFs(), Members(items)[..k]) == Some(Replayed(m, items, k))
  {
    if k == 0 {
      assert Replayed(m, items, 0) == EmptyFs();
    } else {
      ReplayPrefix(m, items, k - 1);
      var es := Members(items);
      assert es[..k][..k - 1] == es[..k - 1];
      ReplayStep(m, items, k - 1);
    }
  }

  /** The next item's parent is there already, and nothing at or below the item is. */
  lemma ReplayReady(m: FlatFs, items: seq<Item>, k: nat)
    requires WellFormed(m) && Listing(m, items) && k < |items|
    ensures items[k].0 != [] && IsDir(Replayed(m, items, k), Parent(items[k].0))
    ensures forall q :: q in Replayed(m, items, k) ==> !(items[k].0 <= q)
  {
    var p := items[k].0;
    assert IsDir(m, Parent(p));
    if Parent(p) != [] {
      assert Lists(items, Parent(p));
      var i :| 0 <= i < |items| && items[i].0 == Parent(p);
      PrefixBefore(Parent(p), p);
      OrderIndex(items, i, k);
      assert items[..k][i].0 == Parent(p);
    }
    forall q | q in Replayed(m, items, k) ensures !(p <= q) {
      if q != [] {
        var i :| 0 <= i < |items[..k]| && items[..k][i].0 == q;
        assert PathBefore(items[i].0, items[k].0);
        NotAbove(p, q);
      }
    }
  }

  lemma NotAbove(p: Path, q: Path)
    requires PathBefore(q, p)
    ensures !(p <= q)
  {
    if p <= q {
      if p == q {
        PathStrict(p);
      } else {
        PrefixBefore(p, q);
        PathTransitive(p, q, p);
        PathStrict(p);
      }
    }
  }

  lemma OrderIndex(items: seq<Item>, i: nat, k: nat)
    requires InOrder(items) && i < |items| && k < |items| && PathBefore(items[i].0, items[k].0)
    ensures i < k
  {
    if i == k {
      PathStrict(items[i].0);
    } else if k < i {
      PathTransitive(items[i].0, items[k].0, items[i].0);
      PathStrict(items[i].0);
    }
  }

  lemma ReplayStep(m: FlatFs, items: seq<Item>, k: nat)
    requires WellFormed(m) && Listing(m, items) && k < |items|
    ensures Process(Replayed(m, items, k), Members(items)[k]) == Some(Replayed(m, items, k + 1))
  {
    ItemOf(m, items, k);
    hide WellFormed, Listing, Process, Replayed;
    ReplayReady(m, items, k);
    ReadBack(m, items[k].0, items[k].1);
    ReplayedNext(m, items, k);
    ProcessNew(Replayed(m, items, k), items[k].0, items[k].1);
  }

  lemma ItemOf(m: FlatFs, items: seq<Item>, k: nat)
    requires Listing(m, items) && k < |items|
    ensures items[k].0 in m && items[k].0 != []
  {
  }

  /** A member whose directory is there and whose place is empty is just added. */
  lemma ProcessNew(m: FlatFs, p: Path, e: Entry)
    requires p != [] && IsDir(m, Parent(p)) && forall q :: q in m ==> !(p <= q)
    requires var s := MemberOf((p, e)).path; var name := p[|p| - 1];
      Basename(s) == name && Parts(Dirname(s)) == Parent(p) && !Whiteout(name) && name != OPAQUE
    ensures Process(m, MemberOf((p, e))) == Some(m[p := e])
  {
    hide Basename, Dirname, Parts, Prefix;
    assert p == Parent(p) + [p[|p| - 1]];
    assert Without(m, p) == m;
    assert p !in m;
  }

  lemma ReplayedNext(m: FlatFs, items: seq<Item>, k: nat)
    requires Listing(m, items) && k < |items|
    ensures Replayed(m, items, k + 1) == Replayed(m, items, k)[items[k].0 := items[k].1]
  {
    assert items[..k + 1] == items[..k] + [items[k]];
    forall q ensures Lists(items[..k + 1], q) <==> Lists(items[..k], q) || q == items[k].0 {
      ListsSnoc(items[..k], items[k], q);
    }
  }

  lemma ListsSnoc(items: seq<Item>, x: Item, q: Path)
    ensures Lists(items + [x], q) <==> Lists(items, q) || q == x.0
  {
    if Lists(items, q) {
      var i :| 0 <= i < |items| && items[i].0 == q;
      assert (items + [x])[i].0 == q;
    }
    if q == x.0 { assert (items + [x])[|items|].0 == q; }
  }

  /** The member's path is taken apart into the directory and name it came from, and its name is no
      whiteout. */
  lemma ReadBack(m: FlatFs, p: Path, e: Entry)
    requires WellFormed(m) && p in m && p != []
    ensures var s := MemberOf((p, e)).path; var name := p[|p| - 1];
      Basename(s) == name && Parts(Dirname(s)) == Parent(p) && !Whiteout(name) && name != OPAQUE
  {
    var dir, name := Parent(p), p[|p| - 1];
    assert GoodPath(p);
    forall n | n in dir ensures ProperName(n) {
      var i :| 0 <= i < |dir| && dir[i] == n;
      assert p[i] == n;
    }
    SplitArchived(dir, name);
  }

  /** Reading the archive into an empty file system succeeds and yields the same map, up to the
      root's own metadata, which no archive records. */
  lemma ReplayArchive(m: FlatFs)
    requires WellFormed(m)
    ensures Listing(m, ListDir(m, []))
    ensures ProcessAll(EmptyFs(), Members(ListDir(m, []))) == Some(m[[] := ROOT_ENTRY])
  {
    ArchiveIsListing(m);
    hide ListDir, WellFormed;
    var items := ListDir(m, []);
    ListedNotRoot(m, items);
    RootIsDir(m);
    hide Listing;
    ReplayPrefix(m, items, |items|);
    assert Members(items)[..|items|] == Members(items);
    ReplayedAll(m, items);
  }

  lemma ListedNotRoot(m: FlatFs, items: seq<Item>)
    requires Listing(m, items)
    ensures forall i :: 0 <= i < |items| ==> items[i].0 != []
  {
  }

  lemma ReplayedAll(m: FlatFs, items: seq<Item>)
    requires Listing(m, items) && [] in m
    ensures Replayed(m, items, |items|) == m[[] := ROOT_ENTRY]
  {
    assert items[..|items|] == items;
  }
}

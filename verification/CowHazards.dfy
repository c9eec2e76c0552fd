/** Runs of the code as it stands that lose a page or a snapshot: a second removal, an upgrade over a
    stale gc entry, and reopening before a checkpoint. */
module CowHazards {
  import opened Basics
  import opened SlotWords
  import opened SortedTables
  import opened FreeLists
  import opened RangeMaps
  import opened SlotTables
  import opened CowStore
  import opened StatePages
  import opened CowRuns
  import opened CowStale

  // ----- runs with one illegal step -----

  /** Every step but the k-th is legal. */
  ghost predicate LegalBut(s: Store, es: seq<Step>, k: int)
    requires PossibleRun(s, es)
    decreases |es|
  {
    es == [] || ((k != 0 <==> Legal(s, es[0])) && LegalBut(Apply(s, es[0]), es[1..], k - 1))
  }

  lemma PlayStep(s: Store, e: Step, es: seq<Step>, k: int)
    requires Possible(s, e) && (k != 0 <==> Legal(s, e))
    requires PossibleRun(Apply(s, e), es) && LegalBut(Apply(s, e), es, k - 1)
    ensures PossibleRun(s, [e] + es) && LegalBut(s, [e] + es, k)
    ensures After(s, [e] + es) == After(Apply(s, e), es)
  {
    assert ([e] + es)[1..] == es;
  }

  lemma {:induction false} PlayAfter(s: Store, es: seq<Step>, more: seq<Step>, k: nat)
    requires LegalRun(s, es) && PossibleRun(Run(s, es), more) && LegalBut(Run(s, es), more, k)
    ensures PossibleRun(s, es + more) && LegalBut(s, es + more, |es| + k)
    ensures After(s, es + more) == After(Run(s, es), more)
    decreases |es|
  {
    hide Possible, InOrder, GcAllows, Apply;
    if es == [] {
      assert es + more == more;
    } else {
      PlayAfter(Apply(s, es[0]), es[1..], more, k);
      PlayStep(s, es[0], es[1..] + more, |es| + k);
      assert [es[0]] + (es[1..] + more) == es + more;
    }
  }

  // ----- a second removal -----

  lemma FirstIs(keys: set<nat>, k: nat)
    requires IsFirst(keys, k)
    ensures keys != {} && FirstKey(keys) == k
  {
  }

  lemma AllocOne(f: FreeList, k: nat)
    requires IsFirst(f.Keys, k) && f[k] > 0
    ensures Alloc(f, 1) == Some(([k], if f[k] > 1 then (f - {k})[k + 1 := f[k] - 1] else f - {k}))
  {
    FirstIs(f.Keys, k);
    assert Consecutive(k, 1) == [k];
    assert Alloc(f - {k}, 0) == Some(([], f - {k}));
    assert [k] + [] == [k];
  }

  /** Page 0 is written, snapshotted, written, snapshotted; the first snapshot is removed, and page 0
      is written again, which takes the slot the removal freed. */
  function ReuseSteps(a: Page, b: Page, c: Page): (es: seq<Step>)
    ensures |es| == 6
  {
    [Commit([0], map[0 := a]), Snapshot(1), Commit([0], map[0 := b]), Snapshot(2), Remove(2), Commit([0], map[0 := c])]
  }

  const T1: Tables := Tables(4, map[1 := 3], map[0 := TAG], map[], map[], 0, 0)
  const T2: Tables := Tables(4, map[1 := 3], map[0 := 0], map[1 := map[0 := 0]], map[], 1, 0)
  const T3: Tables := Tables(4, map[2 := 2], map[0 := TAG + 1], map[1 := map[0 := 0]], map[0 := 1], 1, 0)
  const T4: Tables := Tables(4, map[2 := 2], map[0 := 1], map[1 := map[0 := 0], 2 := map[0 := 1]], map[0 := 1], 2, 0)
  const T5: Tables := Tables(4, map[2 := 2, 0 := 1], map[0 := 1], map[2 := map[0 := 1]], map[0 := 1], 2, 0)
  const T6: Tables := Tables(4, map[2 := 2], map[0 := TAG], map[2 := map[0 := 1]], map[0 := 1, 1 := 2], 2, 0)

  lemma ReuseCommit(s: Store, p: nat, x: Page, k: nat, left: FreeList, t: Tables)
    requires Alloc(s.tables.free, 1) == Some(([k], left)) && SharedIn(s.tables.current, p)
    requires PutOne(s.tables.(free := left), p, k, TableInfo(s.tables.current, p).1) == t
    ensures Legal(s, Commit([p], map[p := x]))
    ensures var u := Apply(s, Commit([p], map[p := x])); u.tables == t && u.file == s.file[SlotOf(k) := x]
  {
    hide Alloc, PutMappings, SoftCommit;
    CommitOne(s, s.tables.current, p, x, k, left);
    PutOneIs(s.tables.(free := left), p, k, TableInfo(s.tables.current, p).1);
  }

  lemma First(s: Store, a: Page)
    requires s.tables == Fresh(4)
    ensures Legal(s, Commit([0], map[0 := a]))
    ensures var u := Apply(s, Commit([0], map[0 := a])); u.tables == T1 && u.file == s.file[0 := a]
  {
    hide Alloc, SoftCommit;
    AllocOne(s.tables.free, 0);
    var left: FreeList := map[1 := 3];
    assert (s.tables.free - {0})[0 + 1 := 3] == left;
    ReuseCommit(s, 0, a, 0, left, T1);
  }

  lemma Second(s: Store, b: Page)
    requires s.tables == T2
    ensures Legal(s, Commit([0], map[0 := b]))
    ensures var u := Apply(s, Commit([0], map[0 := b])); u.tables == T3 && u.file == s.file[1 := b]
  {
    hide Alloc, SoftCommit;
    AllocOne(s.tables.free, 1);
    var left: FreeList := map[2 := 2];
    assert (s.tables.free - {1})[1 + 1 := 2] == left;
    ReuseCommit(s, 0, b, 1, left, T3);
  }

  lemma Third(s: Store, c: Page)
    requires s.tables == T5
    ensures Legal(s, Commit([0], map[0 := c]))
    ensures var u := Apply(s, Commit([0], map[0 := c])); u.tables == T6 && u.file == s.file[0 := c]
  {
    hide Alloc, SoftCommit;
    AllocOne(s.tables.free, 0);
    var left: FreeList := map[2 := 2];
    assert s.tables.free - {0} == left;
    ReuseCommit(s, 0, c, 0, left, T6);
  }

  lemma Snapshots()
    ensures EndRound(T1, 1) == T2 && EndRound(T3, 2) == T4
  {
    assert Freeze(T1.current) == map[0 := 0];
    assert Freeze(T3.current) == map[0 := 1];
    assert map[] + Freeze(T1.current) == Freeze(T1.current);
    assert map[] + Freeze(T3.current) == Freeze(T3.current);
  }

  lemma Removal()
    ensures CleanExpiry(T4, 2) && RemoveBelow(T4, 2) == T5
  {
    assert Expiring(T4, 2) == {0};
    assert TAG !in Words(T4.free);
    assert Kept(T4.rounds, 2) == T5.rounds;
    forall p ensures !Mapped(T4, p, 0) {}
  }

  /** The code as it stands reaches a state in which the same removal again is not clean. */
  lemma ReuseReached(s: Store, a: Page, b: Page, c: Page)
    requires s == FreshStore(4)
    ensures LegalRun(s, ReuseSteps(a, b, c))
    ensures var u := Run(s, ReuseSteps(a, b, c)); u.tables == T6 && 0 in u.file && u.file[0] == c
    ensures !CleanExpiry(T6, 2)
  {
    hide SoftCommit, CleanExpiry, EndRound, RemoveBelow;
    var es := ReuseSteps(a, b, c);
    First(s, a);
    var s1 := Apply(s, es[0]);
    Snapshots();
    var s2 := Apply(s1, es[1]);
    Second(s2, b);
    var s3 := Apply(s2, es[2]);
    var s4 := Apply(s3, es[3]);
    Removal();
    var s5 := Apply(s4, es[4]);
    Third(s5, c);
    OneStep(s5, es[5], []);
    OneStep(s4, es[4], [es[5]]);
    OneStep(s3, es[3], [es[4], es[5]]);
    OneStep(s2, es[2], [es[3], es[4], es[5]]);
    OneStep(s1, es[1], [es[2], es[3], es[4], es[5]]);
    OneStep(s, es[0], [es[1], es[2], es[3], es[4], es[5]]);
    NotClean();
  }

  lemma NotClean()
    ensures !CleanExpiry(T6, 2)
  {
    assert 0 in Expiring(T6, 2);
    assert Mapped(T6, 0, 0);
  }

  /** Removing again, as the only step that is not legal, and then committing another page puts that
      page's contents on page 0. */
  lemma SecondRemovalCorrupts(s: Store, a: Page, b: Page, c: Page, d: Page)
    requires s == FreshStore(4)
    ensures var es := ReuseSteps(a, b, c) + [Remove(2), Commit([7], map[7 := d])];
      && PossibleRun(s, es) && LegalBut(s, es, 6)
      && var u := After(s, es);
      0 in u.tables.current && View(u.tables.current, u.file)[0] == d
  {
    hide SoftCommit, RemoveBelow, CleanExpiry, View, ReuseSteps, LegalRun, Run;
    ReuseReached(s, a, b, c);
    var s6 := Run(s, ReuseSteps(a, b, c));
    assert RemoveBelow(T6, 2).free == map[2 := 2, 0 := 1] by { RemovalAgain(); }
    var s7 := Apply(s6, Remove(2));
    assert s7.tables.current == T6.current by { RemoveKeepsCurrent(T6, 2); }
    NextCommit(s7, d);
    var e := Commit([7], map[7 := d]);
    var u := Apply(s7, e);
    PlayStep(s7, e, [], -1);
    PlayStep(s6, Remove(2), [e] + [], 0);
    assert [Remove(2)] + ([e] + []) == [Remove(2), e];
    PlayAfter(s, ReuseSteps(a, b, c), [Remove(2), e], 0);
    ViewAt(u.tables.current, u.file, 0);
  }

  lemma RemovalAgain()
    ensures RemoveBelow(T6, 2).free == map[2 := 2, 0 := 1]
  {
    assert Expiring(T6, 2) == {0};
  }

  /** With slot 0 first on the free list, a commit of page 7 writes to it. */
  lemma NextCommit(s: Store, d: Page)
    requires s.tables.free == map[2 := 2, 0 := 1] && 7 !in s.tables.current
    ensures Legal(s, Commit([7], map[7 := d]))
    ensures var u := Apply(s, Commit([7], map[7 := d]));
      && u.file == s.file[0 := d] && u.tables.rounds == s.tables.rounds
      && u.tables.current == s.tables.current[7 := TAG]
  {
    hide SoftCommit, Alloc;
    AllocOne(s.tables.free, 0);
    var left: FreeList := map[2 := 2];
    assert s.tables.free - {0} == left;
    CommitOne(s, s.tables.current, 7, d, 0, left);
    PutOneIs(s.tables.(free := left), 7, 0, INVALID_SLOT);
  }

  lemma ViewAt(t: Table, file: FileMap, p: nat)
    requires p in t
    ensures p in View(t, file) && View(t, file)[p] == ReadSlot(file, SlotOf(t[p]))
  {
  }

  // ----- dropping a table that kept a stale entry in check -----

  const T7: Tables :=
    Tables(4, map[2 := 2], map[0 := 0], map[2 := map[0 := 1], 3 := map[0 := 0]], map[0 := 1, 1 := 2], 3, 0)
  const T8: Tables := T7.(current := map[])
  const T9: Tables := T8.(free := map[2 := 2, 0 := 1])

  lemma ThirdSnapshot()
    ensures EndRound(T6, 3) == T7
  {
    assert Freeze(T6.current) == map[0 := 0];
    assert map[] + Freeze(T6.current) == Freeze(T6.current);
  }

  lemma StaleClear()
    ensures !GcExact(T7) && ClearCurrent(T7) == T8
  {
    assert InRound(T7, 3, 0, 0);
    assert PrivateWords(T7.current) == {};
  }

  lemma CleanRemoval()
    ensures CleanExpiry(T8, 2) && RemoveBelow(T8, 2) == T9
  {
    assert Expiring(T8, 2) == {0};
    assert TAG !in Words(T8.free);
    assert Kept(T8.rounds, 2) == T9.rounds;
  }

  /** Upgrading, as the only step that is not legal, after another snapshot: the removal that follows
      meets its own condition and keeps the snapshot, but frees a slot of it, which the next commit
      overwrites. */
  lemma ClearCorruptsSnapshot(s: Store, a: Page, b: Page, c: Page, d: Page)
    requires s == FreshStore(4)
    ensures var es := ReuseSteps(a, b, c) + [Snapshot(3), Clear, Remove(2), Commit([7], map[7 := d])];
      && PossibleRun(s, es) && LegalBut(s, es, 7)
      && var u := After(s, es);
      3 in u.tables.rounds && 0 in u.tables.rounds[3] && View(u.tables.rounds[3], u.file)[0] == d
  {
    hide SoftCommit, EndRound, ClearCurrent, RemoveBelow, GcExact, CleanExpiry, View, ReuseSteps, LegalRun, Run;
    ReuseReached(s, a, b, c);
    ThirdSnapshot();
    StaleClear();
    CleanRemoval();
    var e := Commit([7], map[7 := d]);
    var s6 := Run(s, ReuseSteps(a, b, c));
    var s9 := s6.(tables := T9);
    NextCommit(s9, d);
    var u := Apply(s9, e);
    PlayStep(s9, e, [], -2);
    PlayStep(s6.(tables := T8), Remove(2), [e] + [], -1);
    PlayStep(s6.(tables := T7), Clear, [Remove(2)] + ([e] + []), 0);
    PlayStep(s6, Snapshot(3), [Clear] + ([Remove(2)] + ([e] + [])), 1);
    var more := [Snapshot(3), Clear, Remove(2), e];
    assert [Snapshot(3)] + ([Clear] + ([Remove(2)] + ([e] + []))) == more;
    PlayAfter(s, ReuseSteps(a, b, c), more, 1);
    ViewAt(u.tables.rounds[3], u.file, 0);
  }

  // ----- reopening before a checkpoint -----

  /** One commit and one snapshot. */
  lemma SnapshotReached(s: Store, a: Page)
    requires s == FreshStore(4)
    ensures LegalRun(s, [Commit([0], map[0 := a]), Snapshot(1)])
    ensures Run(s, [Commit([0], map[0 := a]), Snapshot(1)]).tables == T2
  {
    hide SoftCommit, EndRound;
    First(s, a);
    Snapshots();
    var s1 := Apply(s, Commit([0], map[0 := a]));
    OneStep(s1, Snapshot(1), []);
    OneStep(s, Commit([0], map[0 := a]), [Snapshot(1)]);
  }

  const R1: Tables := T2.(last := 0)
  const R2: Tables := Tables(4, map[2 := 2], map[0 := TAG + 1], map[1 := map[0 := 0]], map[0 := 0], 0, 0)
  const R3: Tables := R2.(free := map[2 := 2, 0 := 1])

  lemma ReopenedRemoval()
    ensures CleanExpiry(R2, 1) && RemoveBelow(R2, 1) == R3
  {
    assert Expiring(R2, 1) == {0};
    assert TAG !in Words(R2.free);
    assert Kept(R2.rounds, 1) == R3.rounds;
    forall p ensures !Mapped(R2, p, 0) {}
  }

  lemma ReopenedCommit(s: Store, b: Page)
    requires s.tables == R1
    ensures Legal(s, Commit([0], map[0 := b]))
    ensures Apply(s, Commit([0], map[0 := b])).tables == R2
  {
    hide Alloc, SoftCommit;
    AllocOne(s.tables.free, 1);
    var left: FreeList := map[2 := 2];
    assert (s.tables.free - {1})[1 + 1 := 2] == left;
    ReuseCommit(s, 0, b, 1, left, R2);
  }

  /** Reopening without a checkpoint, as the only step that is not legal, restarts from a round before
      the snapshot. What is overwritten next counts as dropped before the snapshot, so a removal that
      keeps the snapshot frees its slot, and the next commit overwrites it. */
  lemma ReopenCorruptsSnapshot(s: Store, a: Page, b: Page, d: Page)
    requires s == FreshStore(4)
    ensures var es := [Commit([0], map[0 := a]), Snapshot(1)]
                      + [Reopened, Commit([0], map[0 := b]), Remove(1), Commit([7], map[7 := d])];
      && PossibleRun(s, es) && LegalBut(s, es, 2)
      && var u := After(s, es);
      1 in u.tables.rounds && 0 in u.tables.rounds[1] && View(u.tables.rounds[1], u.file)[0] == d
  {
    hide SoftCommit, RemoveBelow, CleanExpiry, View, LegalRun, Run;
    var c, e := Commit([0], map[0 := b]), Commit([7], map[7 := d]);
    var start := [Commit([0], map[0 := a]), Snapshot(1)];
    SnapshotReached(s, a);
    var s2 := Run(s, start);
    var s3 := Apply(s2, Reopened);
    ReopenedCommit(s3, b);
    var s4 := Apply(s3, c);
    ReopenedRemoval();
    var s5 := Apply(s4, Remove(1));
    NextCommit(s5, d);
    var u := Apply(s5, e);
    PlayStep(s5, e, [], -3);
    PlayStep(s4, Remove(1), [e] + [], -2);
    PlayStep(s3, c, [Remove(1)] + ([e] + []), -1);
    assert InRound(s2.tables, 1, 0, 0) && Mapped(s2.tables, 0, 0);
    PlayStep(s2, Reopened, [c] + ([Remove(1)] + ([e] + [])), 0);
    var more := [Reopened, c, Remove(1), e];
    assert [Reopened] + ([c] + ([Remove(1)] + ([e] + []))) == more;
    PlayAfter(s, start, more, 0);
    ViewAt(u.tables.rounds[1], u.file, 0);
  }
}

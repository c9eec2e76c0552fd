/** Stores in which no collection entry is stale: exactly which steps do harm. */
module CowHarmExact {
  import opened FreeLists
  import opened SlotTables
  import opened CowStore
  import opened CowRuns
  import opened CowConservation
  import opened CowStale
  import opened CowHarm

  lemma PendingAt(t: Tables, m: nat)
    ensures GcPending(t.(last := m)) <==> GcPending(t)
  {
    hide Words, InCurrent, IsFree;
    LastAside(t, m);
  }

  lemma PurgeAt(t: Tables, m: nat, bound: nat)
    requires SafeAt(t, m) && GcPending(t)
    ensures CleanExpiry(t, bound) && SafeAt(PurgeBelow(t, bound), m) && GcPending(PurgeBelow(t, bound))
  {
    hide Safe, GcPending, CleanExpiry, Expiring, PutBack;
    PendingAt(t, m);
    PurgeBelowSafe(t.(last := m), bound);
    assert PurgeBelow(t.(last := m), bound) == PurgeBelow(t, bound).(last := m) by { PurgeLast(t, m, bound); }
    PendingAt(PurgeBelow(t, bound), m);
    CleanAt(t, m, bound);
  }

  lemma PurgeLast(t: Tables, m: nat, bound: nat)
    ensures PurgeBelow(t.(last := m), bound) == PurgeBelow(t, bound).(last := m)
  {
    assert Expiring(t.(last := m), bound) == Expiring(t, bound);
  }

  lemma PurgeFrees(t: Tables, y: nat)
    requires FreeListOk(t) && y in t.gc
    ensures Words(PurgeBelow(t, t.gc[y] + 1).free) != {}
  {
    hide Words, Disjoint, Spread, PutBack;
    RemoveFreeList(t, t.gc[y] + 1);
    assert y in Words(PurgeBelow(t, t.gc[y] + 1).free);
  }

  /** With no free slot, a removal that keeps the late round may make one. */
  lemma PurgeFirst(u: Store, m: nat, r: nat, q: nat, x: nat, y: nat)
    requires SafeAt(u.tables, m) && GcPending(u.tables) && Late(u.tables, r, q, x)
    requires y in u.tables.gc && u.tables.gc[y] < r
    ensures var e := Purge(u.tables.gc[y] + 1);
      && Legal(u, e)
      && var v := Apply(u, e);
      && SafeAt(v.tables, m) && GcPending(v.tables) && Late(v.tables, r, q, x) && Words(v.tables.free) != {}
      && v.tables.last == u.tables.last && v.file == u.file
  {
    hide Words, Disjoint, Spread, GcPending, SafeAt, Late, PurgeBelow, CleanExpiry, SoftCommit;
    var t := u.tables;
    PurgeAt(t, m, t.gc[y] + 1);
    AtFacts(t, m);
    PurgeFrees(t, y);
    PurgeKeepsLate(t, t.gc[y] + 1, r, q, x);
  }

  lemma CleanAt(t: Tables, m: nat, bound: nat)
    ensures CleanExpiry(t.(last := m), bound) <==> CleanExpiry(t, bound)
  {
    hide Words, InCurrent;
    LastAside(t, m);
    assert Expiring(t.(last := m), bound) == Expiring(t, bound);
  }

  lemma PurgeKeepsLate(t: Tables, b: nat, r: nat, q: nat, x: nat)
    requires Late(t, r, q, x) && b <= r
    ensures Late(PurgeBelow(t, b), r, q, x) && PurgeBelow(t, b).last == t.last
  {
    hide PutBack;
    var p :| Mapped(t, p, x);
    assert Mapped(PurgeBelow(t, b), p, x);
  }

  lemma PendingCleanBut(t: Tables, x: nat)
    requires GcPending(t)
    ensures CleanBut(t, x)
  {
    hide InCurrent, IsFree;
  }

  /** A late round is seen if a slot is free, or becomes free by a removal that keeps the round. */
  lemma LateShown(u: Store, n: Naive, m: nat, r: nat, q: nat, x: nat) returns (more: seq<Step>)
    requires SafeAt(u.tables, m) && GcPending(u.tables) && Late(u.tables, r, q, x)
    requires Words(u.tables.free) != {} || exists y :: y in u.tables.gc && u.tables.gc[y] < r
    requires r in n.rounds && q in n.rounds[r] && n.rounds[r][q] == ReadSlot(u.file, x)
    ensures |more| <= 4 && Differs(u, n, more)
  {
    hide SafeAt, GcPending, Late, Words, Differs, Abs, ReadSlot, CleanBut, Legal;
    if Words(u.tables.free) != {} {
      PendingCleanBut(u.tables, x);
      more := LateHarms(u, n, m, r, q, x);
    } else {
      var y :| y in u.tables.gc && u.tables.gc[y] < r;
      PurgeFirst(u, m, r, q, x, y);
      var e := Purge(u.tables.gc[y] + 1);
      var v := Apply(u, e);
      PendingCleanBut(v.tables, x);
      var rest := LateHarms(v, NaiveStep(n, e), m, r, q, x);
      more := [e] + rest;
      DiffersStep(u, n, e, rest);
    }
  }

  /** The step is read at once, or leaves a late round and a slot that is free or becomes free before that
      round is removed. */
  ghost predicate Shown(s: Store, e: Step) {
    Drops(s, e) || exists r, q, x :: Late(Ended(s, e), r, q, x) && Roomy(s.tables, r)
  }

  ghost predicate Roomy(t: Tables, r: nat) {
    Words(t.free) != {} || exists y :: y in t.gc && t.gc[y] < r
  }

  lemma EndedRoom(s: Store, e: Step)
    requires e.Snapshot? || e.Reopened?
    ensures Apply(s, e).tables.free == s.tables.free && Apply(s, e).tables.gc == s.tables.gc
  {
  }

  lemma ShownHarms(s: Store, e: Step)
    requires Safe(s.tables) && GcPending(s.tables) && (e.Snapshot? || e.Reopened?) && Shown(s, e)
    ensures Harms(s, e)
  {
    hide Safe, GcPending, SafeAt, Words, Differs, Abs, NaiveStep, Late, Apply, Drops, Ended;
    var u, n := Apply(s, e), NaiveStep(Abs(s), e);
    DropsShows(s, e);
    EndedLate(s, e);
    if Drops(s, e) {
      DiffersNow(u, n);
    } else {
      var r: nat, q: nat, x: nat :| Late(Ended(s, e), r, q, x) && Roomy(s.tables, r);
      EndedRoom(s, e);
      var m := LateTables(s, e);
      assert InRound(u.tables, r, q, x) by { LateIs(u.tables, r, q, x); }
      RoundReads(u, m, r, q, x);
      var more := LateShown(u, n, m, r, q, x);
    }
  }

  // ----- a store with no room never shows it -----

  /** No slot is free, and none can become free before the late rounds are removed. */
  ghost predicate Stuck(t: Tables, m: nat) {
    SafeAt(t, m) && Words(t.free) == {} && forall r, q, x :: Late(t, r, q, x) ==> !Roomy(t, r)
  }

  ghost predicate Quiet(t: Tables) { Safe(t) || exists m :: Stuck(t, m) }

  lemma NotLateSafe(t: Tables, m: nat)
    requires SafeAt(t, m) && forall r: nat, q: nat, x: nat :: !Late(t, r, q, x)
    ensures Safe(t)
  {
    hide Words, Disjoint, Spread;
    AtFacts(t, m);
    forall r: nat, q: nat, s: nat | InRound(t, r, q, s) && InCurrent(t, s) ensures r <= t.last {
      assert !Late(t, r, q, s);
    }
  }

  lemma NoneLaterAt(t: Tables, m: nat, round: nat)
    ensures NoneLater(t.(last := m), round) <==> NoneLater(t, round)
    ensures GcExact(t.(last := m)) <==> GcExact(t)
  {
    hide InCurrent, InRound;
    LastAside(t, m);
  }

  lemma EmptyCommit(s: Store, mem: Memory)
    ensures var r := SoftCommit(s, s.tables.current, mem, []);
      r.Some? && r.value.tables == s.tables && r.value.file == s.file
  {
    NothingPublished(s.tables, map[]);
    hide PutMappings, GrowFile;
    assert PutBack(s.tables.free, {}) == s.tables.free;
  }

  lemma CommitAllocates(s: Store, e: Step)
    requires e.Commit? && Possible(s, e)
    ensures Alloc(s.tables.free, |e.pages|).Some?
  {
    hide Alloc, WritePages, PutMappings, GrowFile;
  }

  /** With no free slot only an empty commit is possible. */
  lemma StuckCommit(s: Store, e: Step)
    requires Disjoint(s.tables.free) && Words(s.tables.free) == {} && e.Commit? && Possible(s, e)
    ensures Apply(s, e).tables == s.tables && Abs(Apply(s, e)) == NaiveStep(Abs(s), e)
  {
    hide Words, Disjoint, View, Served, SoftCommit;
    CommitAllocates(s, e);
    AllocTakesSmallest(s.tables.free, |e.pages|);
    ServedEnough(s.tables.free, |e.pages|, Alloc(s.tables.free, |e.pages|));
    assert e.pages == [];
    EmptyCommit(s, e.mem);
    SameReads(s, Apply(s, e));
    assert NaiveStep(Abs(s), e).current == Abs(s).current;
  }

  lemma StuckSnapshot(s: Store, m: nat, round: nat)
    requires SafeAt(s.tables, m) && Legal(s, Snapshot(round))
    ensures Safe(Apply(s, Snapshot(round)).tables)
    ensures Abs(Apply(s, Snapshot(round))) == NaiveStep(Abs(s), Snapshot(round))
  {
    hide Safe, NoneLater, Abs, NaiveStep;
    var t := s.tables;
    NoneLaterAt(t, m, round);
    EndRoundSafe(t.(last := m), round);
    assert EndRound(t.(last := m), round) == EndRound(t, round);
    SafeValid(t.(last := m));
    SnapshotShows(s, round);
  }

  /** A removal keeps the store stuck, or takes the last late round away. */
  lemma StuckRemove(s: Store, m: nat, e: Step)
    requires Stuck(s.tables, m) && (e.Remove? || e.Purge?) && Legal(s, e)
    ensures Quiet(Apply(s, e).tables) && Abs(Apply(s, e)) == NaiveStep(Abs(s), e)
  {
    hide Words, Disjoint, Spread, Safe, CleanExpiry, Abs, NaiveStep;
    var t, u := s.tables, Apply(s, e).tables;
    RemoveShows(s, e);
    CleanAt(t, m, e.bound);
    RemoveBelowExact(t.(last := m), e.bound);
    PurgeBelowExact(t.(last := m), e.bound);
    assert SafeAt(u, m);
    if forall r: nat, q: nat, x: nat :: !Late(u, r, q, x) {
      NotLateSafe(u, m);
    } else {
      var r: nat, q: nat, x: nat :| Late(u, r, q, x);
      RemovedLate(t, e, u, r, q, x);
      assert !Roomy(t, r);
      assert Expiring(t, e.bound) == {};
      assert u.free == t.free && u.gc == t.gc;
      forall r: nat, q: nat, x: nat | Late(u, r, q, x) ensures !Roomy(u, r) {
        RemovedLate(t, e, u, r, q, x);
        assert !Roomy(t, r);
      }
      assert Stuck(u, m);
    }
  }

  lemma RemovedLate(t: Tables, e: Step, u: Tables, r: nat, q: nat, x: nat)
    requires e.Remove? || e.Purge?
    requires u == (if e.Remove? then RemoveBelow(t, e.bound) else PurgeBelow(t, e.bound)) && Late(u, r, q, x)
    ensures Late(t, r, q, x) && r >= e.bound
  {
    hide PutBack;
    var p :| Mapped(u, p, x);
    assert Mapped(t, p, x);
  }

  lemma StuckClear(s: Store, m: nat)
    requires SafeAt(s.tables, m) && Legal(s, Clear)
    ensures Safe(Apply(s, Clear).tables) && Abs(Apply(s, Clear)) == NaiveStep(Abs(s), Clear)
  {
    hide Safe, Abs, NaiveStep, GcExact, Words, PutBack;
    var t := s.tables;
    NoneLaterAt(t, m, 0);
    ClearShows(s);
    ClearCurrentSafe(t.(last := m));
    assert ClearCurrent(t.(last := m)) == ClearCurrent(t).(last := m);
    NotLateSafe(ClearCurrent(t), m);
  }

  lemma StuckReopen(s: Store, m: nat)
    requires SafeAt(s.tables, m) && Legal(s, Reopened)
    ensures Safe(Apply(s, Reopened).tables) && Abs(Apply(s, Reopened)) == NaiveStep(Abs(s), Reopened)
  {
    hide Safe;
    var t, u := s.tables, Apply(s, Reopened).tables;
    SameReads(s, Apply(s, Reopened));
    assert u.(last := m) == t.(last := m);
    NoneLaterAt(t, t.checkpointed, t.checkpointed);
    NotLateSafe(u, m);
  }

  lemma StuckCheckpoint(s: Store, m: nat)
    requires Stuck(s.tables, m)
    ensures Quiet(Apply(s, Checkpointed).tables)
    ensures Abs(Apply(s, Checkpointed)) == NaiveStep(Abs(s), Checkpointed)
  {
    hide Words, Disjoint, Spread;
    var t, u := s.tables, Apply(s, Checkpointed).tables;
    SameReads(s, Apply(s, Checkpointed));
    CheckpointAside(t, m);
    forall r: nat, q: nat, x: nat ensures Late(u, r, q, x) <==> Late(t, r, q, x) { LateAside(t, r, q, x); }
    assert Stuck(u, m);
  }

  lemma CheckpointAside(t: Tables, m: nat)
    requires SafeAt(t, m)
    ensures SafeAt(Checkpoint(t), m)
  {
    hide Words, Disjoint, Spread;
    var a, b := t.(last := m), Checkpoint(t).(last := m);
    SameCurrent(a, b);
    forall r, p, s ensures InRound(b, r, p, s) <==> InRound(a, r, p, s) {}
  }

  lemma LateAside(t: Tables, r: nat, q: nat, x: nat)
    ensures Late(Checkpoint(t), r, q, x) <==> Late(t, r, q, x)
  {
    if p :| Mapped(t, p, x) { assert Mapped(Checkpoint(t), p, x); }
    if p :| Mapped(Checkpoint(t), p, x) { assert Mapped(t, p, x); }
  }

  lemma QuietStep(s: Store, e: Step)
    requires Quiet(s.tables) && Legal(s, e)
    ensures Quiet(Apply(s, e).tables) && Abs(Apply(s, e)) == NaiveStep(Abs(s), e)
  {
    hide Safe, SafeAt, Words, Abs, NaiveStep, Late, Roomy, InOrder, GcAllows, SoftCommit;
    if Safe(s.tables) {
      StepExact(s, e);
    } else {
      var m :| Stuck(s.tables, m);
      match e
      case Commit(_, _) =>
        AtFacts(s.tables, m);
        StuckCommit(s, e);
      case Snapshot(round) => StuckSnapshot(s, m, round);
      case Remove(_) => StuckRemove(s, m, e);
      case Purge(_) => StuckRemove(s, m, e);
      case Clear => StuckClear(s, m);
      case Checkpointed => StuckCheckpoint(s, m);
      case Reopened => StuckReopen(s, m);
      case Attached => SameReads(s, Apply(s, e)); NaiveAttached(s);
    }
  }

  lemma NaiveAttached(s: Store)
    ensures NaiveStep(Abs(s), Attached) == Abs(s)
  {
  }

  lemma {:induction false} QuietRun(s: Store, es: seq<Step>)
    requires Quiet(s.tables) && LegalRun(s, es)
    ensures Abs(Run(s, es)) == NaiveRun(Abs(s), es)
    decreases |es|
  {
    hide Quiet, Possible, InOrder, GcAllows, Abs, NaiveStep, Apply;
    if es != [] {
      QuietStep(s, es[0]);
      QuietRun(Apply(s, es[0]), es[1..]);
    }
  }

  /** Not shown at once or by a late round with room, never shown. */
  lemma NotShownQuiet(s: Store, e: Step)
    requires Safe(s.tables) && (e.Snapshot? || e.Reopened?) && !Shown(s, e)
    ensures Quiet(Apply(s, e).tables)
  {
    hide Safe, SafeAt, Words, Abs, NaiveStep, Apply, Late, Ended, Drops;
    var u := Apply(s, e).tables;
    var m := LateTables(s, e);
    EndedLate(s, e);
    EndedRoom(s, e);
    if forall r: nat, q: nat, x: nat :: !Late(u, r, q, x) {
      NotLateSafe(u, m);
    } else {
      var r: nat, q: nat, x: nat :| Late(u, r, q, x);
      assert !Roomy(u, r);
      assert Stuck(u, m);
    }
  }

  lemma PendingIllegal(s: Store, e: Step)
    requires Safe(s.tables) && GcPending(s.tables) && Possible(s, e) && !Legal(s, e)
    ensures e.Snapshot? || e.Reopened?
  {
    hide Safe, GcPending, CleanExpiry, GcExact, NoneLater, SoftCommit;
    PendingExact(s.tables);
    if e.Remove? || e.Purge? { PurgeBelowSafe(s.tables, e.bound); }
  }

  lemma ShownIs(s: Store, e: Step)
    ensures Drops(s, e) ==> Shown(s, e)
  {
  }

  /** On every safe store with no stale entry, no legal step does harm that legal steps can show, and a step
      does exactly when it ends a round again that had more pages, or ends a round, or goes back to a
      checkpoint, before a round that shares a slot with the current table, and a slot is free or becomes
      free while that round is kept. */
  lemma HarmsExactly(s: Store, e: Step)
    requires Safe(s.tables) && GcPending(s.tables) && Possible(s, e)
    ensures Harms(s, e) <==> Shown(s, e)
    ensures Legal(s, e) ==> !Harms(s, e)
  {
    hide Safe, GcPending, Differs, Abs, NaiveStep, Apply, Shown, Possible, InOrder, GcAllows, Quiet;
    if Legal(s, e) {
      LegalHarmless(s, e);
      LegalNotShown(s, e);
    } else {
      PendingIllegal(s, e);
      if Shown(s, e) {
        ShownHarms(s, e);
      } else {
        NotShownQuiet(s, e);
        DropsShows(s, e);
        assert !Drops(s, e) by { ShownIs(s, e); }
        forall more | LegalRun(Apply(s, e), more) ensures !Differs(Apply(s, e), NaiveStep(Abs(s), e), more) {
          QuietRun(Apply(s, e), more);
          DiffersIs(Apply(s, e), NaiveStep(Abs(s), e), more);
        }
        assert !Harms(s, e) by { NoDiffers(s, e); }
      }
    }
  }

  lemma DiffersIs(s: Store, n: Naive, es: seq<Step>)
    requires LegalRun(s, es)
    ensures Differs(s, n, es) <==> Abs(Run(s, es)) != NaiveRun(n, es)
  {
  }

  lemma NoDiffers(s: Store, e: Step)
    requires Possible(s, e)
    requires forall more :: LegalRun(Apply(s, e), more) ==> !Differs(Apply(s, e), NaiveStep(Abs(s), e), more)
    ensures !Harms(s, e)
  {
    hide Apply, Abs, NaiveStep;
  }

  lemma LegalNotShown(s: Store, e: Step)
    requires Safe(s.tables) && Legal(s, e)
    ensures !Shown(s, e)
  {
    hide Words, Disjoint, Spread, SoftCommit, InRound, InCurrent, CleanExpiry, GcExact;
    forall r: nat, q: nat, x: nat ensures !Late(Ended(s, e), r, q, x) {
      LastAside(s.tables, Ended(s, e).last);
    }
  }

  /** Not every illegal step does harm: the one slot is taken, and a later round shares it. */
  lemma UnseenReopening() returns (s: Store)
    ensures Safe(s.tables) && GcPending(s.tables) && !Legal(s, Reopened) && !Harms(s, Reopened)
  {
    var t := Tables(free := map[], current := map[0 := 0], rounds := map[5 := map[0 := 0]], gc := map[],
                    nrSlots := 1, last := 5, checkpointed := 0);
    s := Store(tables := t, file := map[], fileLen := 0, written := 0);
    assert Mapped(t, 0, 0) && InRound(t, 5, 0, 0);
    assert !NoneLater(t, 0);
    assert Words(t.free) == {};
    HarmsExactly(s, Reopened);
  }
}

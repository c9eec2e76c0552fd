/** Runs of the memory manager, and the store they are compared with: one that keeps a whole copy of
    the state for every round. */
module CowRuns {
  import opened SlotWords
  import opened FreeLists
  import opened RangeMaps
  import opened SlotTables
  import opened CowStore
  import opened StatePages

  /** `Remove` is removal as the code does it, `Purge` as its comment describes it. `Reopened` is a new
      process, `Attached` another memory manager on the slot manager in use; both count the bytes
      written from the start. */
  datatype Step =
    | Commit(pages: seq<nat>, mem: Memory)
    | Snapshot(round: nat)
    | Remove(bound: nat)
    | Purge(bound: nat)
    | Clear
    | Checkpointed
    | Reopened
    | Attached

  /** A commit always goes through a mapping made from the current table. */
  function Apply(s: Store, e: Step): Store
    requires Possible(s, e)
  {
    match e
    case Commit(pages, mem) => SoftCommit(s, s.tables.current, mem, pages).value
    case Snapshot(round) => s.(tables := EndRound(s.tables, round))
    case Remove(bound) => s.(tables := RemoveBelow(s.tables, bound))
    case Purge(bound) => s.(tables := PurgeBelow(s.tables, bound))
    case Clear => s.(tables := ClearCurrent(s.tables))
    case Checkpointed => s.(tables := Checkpoint(s.tables), written := INITIAL_WRITTEN_SIZE)
    case Reopened => s.(tables := Reopen(s.tables), written := INITIAL_WRITTEN_SIZE)
    case Attached => s.(written := INITIAL_WRITTEN_SIZE)
  }

  /** The step does not panic. */
  predicate Possible(s: Store, e: Step) {
    e.Commit? ==>
      (forall p :: p in e.pages ==> p in e.mem) && SoftCommit(s, s.tables.current, e.mem, e.pages).Some?
  }

  /** What the rounds must look like: no round after the one that ends, or after the checkpointed one
      when the store is reopened, shares a slot with the current table; and ending a round again drops
      no page from it. */
  ghost predicate InOrder(s: Store, e: Step) {
    match e
    case Snapshot(round) =>
      && NoneLater(s.tables, round)
      && (round in s.tables.rounds ==> s.tables.rounds[round].Keys <= s.tables.current.Keys)
    case Reopened => NoneLater(s.tables, s.tables.checkpointed)
    case _ => true
  }

  /** What the gc table must look like. */
  ghost predicate GcAllows(s: Store, e: Step) {
    match e
    case Remove(bound) => CleanExpiry(s.tables, bound)
    case Purge(bound) => CleanExpiry(s.tables, bound)
    case Clear => GcExact(s.tables)
    case _ => true
  }

  ghost predicate Legal(s: Store, e: Step) {
    Possible(s, e) && InOrder(s, e) && GcAllows(s, e)
  }

  ghost predicate LegalRun(s: Store, es: seq<Step>)
    decreases |es|
  {
    es == [] || (Legal(s, es[0]) && LegalRun(Apply(s, es[0]), es[1..]))
  }

  ghost function Run(s: Store, es: seq<Step>): Store
    requires LegalRun(s, es)
    decreases |es|
  {
    if es == [] then s else Run(Apply(s, es[0]), es[1..])
  }

  lemma OneStep(s: Store, e: Step, es: seq<Step>)
    requires Legal(s, e) && LegalRun(Apply(s, e), es)
    ensures LegalRun(s, [e] + es) && Run(s, [e] + es) == Run(Apply(s, e), es)
  {
    assert ([e] + es)[1..] == es;
  }

  lemma {:induction false} LastStep(s: Store, es: seq<Step>, e: Step)
    requires LegalRun(s, es) && Legal(Run(s, es), e)
    ensures LegalRun(s, es + [e]) && Run(s, es + [e]) == Apply(Run(s, es), e)
    decreases |es|
  {
    hide Possible, InOrder, GcAllows, Apply;
    if es == [] {
      assert (es + [e])[1..] == [];
    } else {
      LastStep(Apply(s, es[0]), es[1..], e);
      assert (es + [e])[1..] == es[1..] + [e];
    }
  }

  // ----- the naive store -----

  datatype Naive = Naive(current: Memory, rounds: map<nat, Memory>)

  function NaiveStep(n: Naive, e: Step): Naive {
    match e
    case Commit(pages, mem) => n.(current := n.current + (map p | p in pages && p in mem :: mem[p]))
    case Snapshot(round) => n.(rounds := n.rounds[round := n.current])
    case Remove(bound) => n.(rounds := map r | r in n.rounds && r >= bound :: n.rounds[r])
    case Purge(bound) => n.(rounds := map r | r in n.rounds && r >= bound :: n.rounds[r])
    case Clear => n.(current := map[])
    case Checkpointed => n
    case Reopened => n
    case Attached => n
  }

  function NaiveRun(n: Naive, es: seq<Step>): Naive
    decreases |es|
  {
    if es == [] then n else NaiveRun(NaiveStep(n, es[0]), es[1..])
  }

  /** The naive store a slot store stands for. */
  function Abs(s: Store): Naive {
    Naive(View(s.tables.current, s.file), map r | r in s.tables.rounds :: View(s.tables.rounds[r], s.file))
  }

  /** A page nobody mapped reads as zero. */
  function ReadPage(m: Memory, p: nat): Page {
    if p in m then m[p] else ZERO_PAGE
  }

  // ----- one step -----

  lemma CommitRefines(s: Store, e: Step)
    requires Safe(s.tables) && e.Commit? && Legal(s, e)
    ensures Safe(Apply(s, e).tables) && Abs(Apply(s, e)) == NaiveStep(Abs(s), e)
  {
    hide Safe, SoftCommit, View, Words;
    CommitCorrect(s, e.mem, e.pages);
    CommittedAbs(s, e.mem, e.pages, Apply(s, e));
  }

  lemma CommittedAbs(s: Store, mem: Memory, pages: seq<nat>, u: Store)
    requires (forall p :: p in pages ==> p in mem) && Committed(s, mem, pages, u)
    ensures Abs(u) == NaiveStep(Abs(s), Commit(pages, mem))
  {
    hide Safe, View;
    SameRounds(s, u);
    Written(mem, pages);
  }

  lemma Written(mem: Memory, pages: seq<nat>)
    requires forall p :: p in pages ==> p in mem
    ensures (map p | p in pages && p in mem :: mem[p]) == (map p | p in pages :: mem[p])
  {
  }

  lemma SameRounds(s: Store, u: Store)
    requires u.tables.rounds == s.tables.rounds
    requires forall r :: r in s.tables.rounds ==> View(s.tables.rounds[r], u.file) == View(s.tables.rounds[r], s.file)
    ensures Abs(u).rounds == Abs(s).rounds
  {
    hide View;
  }

  lemma FreezeView(t: Table, file: FileMap)
    requires forall p :: p in t ==> t[p] != INVALID_SLOT
    ensures View(Freeze(t), file) == View(t, file)
  {
    hide ReadSlot;
    assert forall p :: p in t ==> SlotOf(Freeze(t)[p]) == SlotOf(t[p]);
  }

  lemma EndRoundView(t: Tables, file: FileMap, round: nat)
    requires forall p :: p in t.current ==> t.current[p] != INVALID_SLOT
    ensures var u := EndRound(t, round);
      && View(u.current, file) == View(t.current, file)
      && View(u.rounds[round], file) == View(Opened(t.rounds, round), file) + View(t.current, file)
      && u.rounds.Keys == t.rounds.Keys + {round}
      && forall r :: r in t.rounds && r != round ==> u.rounds[r] == t.rounds[r]
  {
    FreezeView(t.current, file);
    hide ReadSlot, SlotOf, Freeze;
    var before, now := Opened(t.rounds, round), Freeze(t.current);
    assert View(before + now, file) == View(before, file) + View(now, file);
  }

  lemma SnapshotExact(s: Store, round: nat)
    requires Safe(s.tables)
    ensures var e := Snapshot(round);
      Safe(Apply(s, e).tables) && Abs(Apply(s, e)) == NaiveStep(Abs(s), e) <==> Legal(s, e)
  {
    hide Safe, EndRound, Abs, NaiveStep, Opened;
    EndRoundExact(s.tables, round);
    SafeValid(s.tables);
    SnapshotShows(s, round);
    assert Opened(s.tables.rounds, round).Keys <= s.tables.current.Keys <==>
           (round in s.tables.rounds ==> s.tables.rounds[round].Keys <= s.tables.current.Keys)
    by { OpenedIs(s.tables, round); }
  }

  lemma OpenedIs(t: Tables, round: nat)
    ensures Opened(t.rounds, round) == if round in t.rounds then t.rounds[round] else map[]
  {
  }

  /** A snapshot shows the current state exactly when an older table of that number had no other page. */
  lemma SnapshotShows(s: Store, round: nat)
    requires forall p :: p in s.tables.current ==> s.tables.current[p] != INVALID_SLOT
    ensures Abs(Apply(s, Snapshot(round))) == NaiveStep(Abs(s), Snapshot(round)) <==>
            Opened(s.tables.rounds, round).Keys <= s.tables.current.Keys
  {
    hide View, EndRound, Opened;
    var before, now := View(Opened(s.tables.rounds, round), s.file), View(s.tables.current, s.file);
    EndRoundView(s.tables, s.file, round);
    SameOverride(before, now);
    ViewKeys(Opened(s.tables.rounds, round), s.file);
    ViewKeys(s.tables.current, s.file);
    var a, n := Abs(Apply(s, Snapshot(round))), NaiveStep(Abs(s), Snapshot(round));
    SameButOne(a.rounds, n.rounds, round);
  }

  lemma SameButOne(a: map<nat, Memory>, b: map<nat, Memory>, round: nat)
    requires a.Keys == b.Keys && round in a && forall r :: r in a && r != round ==> a[r] == b[r]
    ensures a == b <==> a[round] == b[round]
  {
  }

  lemma SameOverride(a: Memory, b: Memory)
    ensures a + b == b <==> a.Keys <= b.Keys
  {
    if a + b == b {
      assert a.Keys <= (a + b).Keys;
    }
  }

  lemma ViewKeys(t: Table, file: FileMap)
    ensures View(t, file).Keys == t.Keys
  {
  }

  lemma SafeValid(t: Tables)
    requires Safe(t)
    ensures forall p :: p in t.current ==> t.current[p] != INVALID_SLOT
  {
  }

  lemma RemoveExact(s: Store, e: Step)
    requires Safe(s.tables) && (e.Remove? || e.Purge?)
    ensures Safe(Apply(s, e).tables) && Abs(Apply(s, e)) == NaiveStep(Abs(s), e) <==> Legal(s, e)
  {
    hide Safe, View, PutBack, CleanExpiry, Expiring;
    RemoveBelowExact(s.tables, e.bound);
    PurgeBelowExact(s.tables, e.bound);
    assert Abs(Apply(s, e)).rounds == NaiveStep(Abs(s), e).rounds;
  }

  lemma ClearExact(s: Store)
    requires Safe(s.tables)
    ensures Safe(Apply(s, Clear).tables) && Abs(Apply(s, Clear)) == NaiveStep(Abs(s), Clear) <==> Legal(s, Clear)
  {
    hide Safe, GcExact, ReadSlot;
    ClearCurrentExact(s.tables);
  }

  lemma BookkeepingExact(s: Store, e: Step)
    requires Safe(s.tables) && (e.Checkpointed? || e.Reopened? || e.Attached?)
    ensures Safe(Apply(s, e).tables) && Abs(Apply(s, e)) == NaiveStep(Abs(s), e) <==> Legal(s, e)
  {
    if e.Reopened? {
      hide Safe, View, NoneLater;
      ReopenExact(s.tables);
    } else {
      hide Words, Disjoint, Spread, View;
      var t, u := s.tables, Apply(s, e).tables;
      SameCurrent(t, u);
      forall r, p, q ensures InRound(u, r, p, q) <==> InRound(t, r, p, q) {}
    }
  }

  /** A step that does not panic leaves the store safe and in step with the naive store exactly when
      it is legal. */
  lemma StepExact(s: Store, e: Step)
    requires Safe(s.tables) && Possible(s, e)
    ensures Safe(Apply(s, e).tables) && Abs(Apply(s, e)) == NaiveStep(Abs(s), e) <==> Legal(s, e)
  {
    match e
    case Commit(_, _) => hide Safe, Abs, NaiveStep, Apply, SoftCommit; CommitRefines(s, e);
    case Snapshot(round) => hide *; SnapshotExact(s, round);
    case Remove(_) => hide *; RemoveExact(s, e);
    case Purge(_) => hide *; RemoveExact(s, e);
    case Clear => hide *; ClearExact(s);
    case Checkpointed => hide *; BookkeepingExact(s, e);
    case Reopened => hide *; BookkeepingExact(s, e);
    case Attached => hide *; BookkeepingExact(s, e);
  }

  // ----- whole runs -----

  /** Every legal run keeps the store safe and in step with the naive store. */
  lemma {:induction false} RunRefines(s: Store, es: seq<Step>)
    requires Safe(s.tables) && LegalRun(s, es)
    ensures Safe(Run(s, es).tables)
    ensures Abs(Run(s, es)) == NaiveRun(Abs(s), es)
    decreases |es|
  {
    hide Safe, Possible, InOrder, GcAllows, Abs, NaiveStep, Apply;
    if es != [] {
      StepExact(s, es[0]);
      RunRefines(Apply(s, es[0]), es[1..]);
    }
  }

  ghost predicate PossibleRun(s: Store, es: seq<Step>)
    decreases |es|
  {
    es == [] || (Possible(s, es[0]) && PossibleRun(Apply(s, es[0]), es[1..]))
  }

  ghost function After(s: Store, es: seq<Step>): Store
    requires PossibleRun(s, es)
    decreases |es|
  {
    if es == [] then s else After(Apply(s, es[0]), es[1..])
  }

  /** After each of its steps the store is safe and in step with the naive store. */
  ghost predicate Faithful(s: Store, es: seq<Step>)
    requires PossibleRun(s, es)
    decreases |es|
  {
    es == [] ||
    (var u := Apply(s, es[0]);
     Safe(u.tables) && Abs(u) == NaiveStep(Abs(s), es[0]) && Faithful(u, es[1..]))
  }

  /** Being legal asks no more than the invariant does: no other run that does not panic is faithful
      throughout. Which steps that break the invariant can be seen in later reads is shown in CowHarm and
      CowHarmExact. */
  lemma {:induction false} FaithfulExactly(s: Store, es: seq<Step>)
    requires Safe(s.tables) && PossibleRun(s, es)
    ensures Faithful(s, es) <==> LegalRun(s, es)
    decreases |es|
  {
    hide Safe, Possible, InOrder, GcAllows, Abs, NaiveStep, Apply;
    if es != [] {
      StepExact(s, es[0]);
      if Legal(s, es[0]) {
        FaithfulExactly(Apply(s, es[0]), es[1..]);
      }
    }
  }
}

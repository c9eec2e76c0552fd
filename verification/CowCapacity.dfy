/** How many slots a run can have in use, and so how many slots a store needs. */
module CowCapacity {
  import opened SlotWords
  import opened SortedTables
  import opened Counting
  import opened FreeLists
  import opened RangeMaps
  import opened SlotTables
  import opened CowStore
  import opened StatePages
  import opened CowRuns
  import opened CowConservation

  // ----- every slot in use is held by a page or by a retained round -----

  /** Shared mappings are those of the last round. */
  ghost predicate SharedInLast(t: Tables) {
    forall p :: p in t.current && IsShared(t.current[p]) ==> InRound(t, t.last, p, t.current[p])
  }

  /** A slot waiting to be collected is still used by the round it was dropped at. */
  ghost predicate GcInRound(t: Tables) {
    forall s :: s in t.gc ==> exists q :: InRound(t, t.gc[s], q, s)
  }

  ghost predicate LastKept(t: Tables) {
    if t.rounds == map[] then t.last == 0 && t.checkpointed == 0
    else t.last in t.rounds && t.checkpointed <= t.last
  }

  ghost predicate Retained(t: Tables) {
    SharedInLast(t) && GcInRound(t) && LastKept(t)
  }

  ghost predicate PagesIn(t: Tables, pages: set<nat>) {
    t.current.Keys <= pages && forall r :: r in t.rounds ==> t.rounds[r].Keys <= pages
  }

  /** Rounds end in increasing order, removal stays below the last executed round, the store is reopened
      only with every round checkpointed, and only the given pages are committed. */
  ghost predicate Retaining(s: Store, e: Step, pages: set<nat>) {
    match e
    case Commit(ps, _) => forall p :: p in ps ==> p in pages
    case Snapshot(round) => forall r :: r in s.tables.rounds ==> r < round
    case Reopened => forall r :: r in s.tables.rounds ==> r <= s.tables.checkpointed
    case Purge(bound) => bound <= s.tables.last
    case _ => true
  }

  lemma CommitRetains(s: Store, e: Step, pages: set<nat>)
    requires Safe(s.tables) && Retained(s.tables) && PagesIn(s.tables, pages)
    requires e.Commit? && Possible(s, e) && Retaining(s, e, pages)
    ensures Retained(Apply(s, e).tables) && PagesIn(Apply(s, e).tables, pages)
  {
    hide Safe, SoftCommit, Took, PutsFit, Retained, PagesIn, PutMappings;
    var words, left, w := CommitParts(s, e.mem, e.pages);
    PutsKeys(s.tables.current, words, e.pages, w);
    PublishRetains(s.tables, PutBack(left, Elems(w.pool)), Elems(Used(words, w.pool)), w.puts, pages);
  }

  lemma PublishRetains(t: Tables, f: FreeList, taken: set<nat>, puts: Puts, pages: set<nat>)
    requires Safe(t) && Retained(t) && PagesIn(t, pages)
    requires Took(t.free, taken, f) && PutsFit(t, taken, puts) && forall p :: p in puts ==> p in pages
    ensures var u := PutMappings(t.(free := f), puts); Retained(u) && PagesIn(u, pages)
  {
    hide Words, Disjoint, Spread, Safe, PutsFit, GcInRound;
    PublishGcInRound(t, f, taken, puts);
    hide PutMappings;
    var u := PutMappings(t.(free := f), puts);
    forall p ensures p in u.current && IsShared(u.current[p]) ==> InRound(u, u.last, p, u.current[p]) {
      PublishShared(t, f, taken, puts, p);
    }
    PublishFrame(t.(free := f), puts);
  }

  lemma PublishFrame(t: Tables, puts: Puts)
    ensures var u := PutMappings(t, puts);
      u.rounds == t.rounds && u.last == t.last && u.checkpointed == t.checkpointed
      && u.current.Keys == t.current.Keys + puts.Keys
  {
  }

  /** What is shared after publishing was shared before. */
  lemma PublishShared(t: Tables, f: FreeList, taken: set<nat>, puts: Puts, p: nat)
    requires Safe(t) && SharedInLast(t) && Took(t.free, taken, f) && PutsFit(t, taken, puts)
    ensures var u := PutMappings(t.(free := f), puts);
      p in u.current && IsShared(u.current[p]) ==> InRound(u, u.last, p, u.current[p])
  {
    hide Words, Disjoint, Spread, Safe;
    if p in puts {
      TakenUnused(t, puts[p].0);
      BoundedSlots(t);
    } else if p in t.current && IsShared(t.current[p]) {
      assert InRound(t, t.last, p, t.current[p]);
    }
  }

  lemma PublishGcInRound(t: Tables, f: FreeList, taken: set<nat>, puts: Puts)
    requires Safe(t) && Retained(t) && Took(t.free, taken, f) && PutsFit(t, taken, puts)
    ensures GcInRound(PutMappings(t.(free := f), puts))
  {
    hide Words, Disjoint, Spread, Safe, PutsFit, Took;
    var u := PutMappings(t.(free := f), puts);
    forall s | s in u.gc ensures exists q :: InRound(u, u.gc[s], q, s) {
      if s in Overwritten(puts) {
        var p := OverwrittenWasMapped(t, taken, puts, s);
        SafeValid(t);
        assert InRound(t, t.last, p, t.current[p]);
        assert InRound(u, u.last, p, s);
      } else {
        var q :| InRound(t, t.gc[s], q, s);
        assert InRound(u, u.gc[s], q, s);
      }
    }
  }

  lemma BoundedSlots(t: Tables)
    requires Safe(t)
    ensures t.nrSlots <= SLOT_BOUND
  {
  }

  lemma SnapshotRetains(t: Tables, round: nat, pages: set<nat>)
    requires Safe(t) && Retained(t) && PagesIn(t, pages) && forall r :: r in t.rounds ==> r < round
    ensures Retained(EndRound(t, round)) && PagesIn(EndRound(t, round), pages)
  {
    hide Words, Disjoint, Spread, Safe;
    var u := EndRound(t, round);
    SafeValid(t);
    assert u.rounds[round] == u.current;
    forall p | p in u.current && IsShared(u.current[p]) ensures InRound(u, u.last, p, u.current[p]) {}
    forall s | s in u.gc ensures exists q :: InRound(u, u.gc[s], q, s) {
      var q :| InRound(t, t.gc[s], q, s);
      assert InRound(u, u.gc[s], q, s);
    }
  }

  lemma PurgeRetains(t: Tables, bound: nat, pages: set<nat>)
    requires Safe(t) && Retained(t) && PagesIn(t, pages) && bound <= t.last
    ensures Retained(PurgeBelow(t, bound)) && PagesIn(PurgeBelow(t, bound), pages)
  {
    hide Words, Disjoint, Spread, Safe, PutBack;
    var u := PurgeBelow(t, bound);
    forall p | p in u.current && IsShared(u.current[p]) ensures InRound(u, u.last, p, u.current[p]) {
      assert InRound(t, t.last, p, t.current[p]);
    }
    forall s | s in u.gc ensures exists q :: InRound(u, u.gc[s], q, s) {
      var q :| InRound(t, t.gc[s], q, s);
      assert InRound(u, u.gc[s], q, s);
    }
    if t.rounds != map[] {
      assert t.last in u.rounds;
    }
  }

  lemma OtherRetains(t: Tables, u: Tables, pages: set<nat>)
    requires Retained(t) && PagesIn(t, pages)
    requires u.rounds == t.rounds && u.gc == t.gc && u.last == t.last
    requires u.current == t.current || u.current == map[]
    requires u.checkpointed == t.checkpointed || u.checkpointed == t.last
    ensures Retained(u) && PagesIn(u, pages)
  {
    forall r, p, s ensures InRound(u, r, p, s) <==> InRound(t, r, p, s) {}
    forall s | s in u.gc ensures exists q :: InRound(u, u.gc[s], q, s) {
      var q :| InRound(t, t.gc[s], q, s);
      assert InRound(u, u.gc[s], q, s);
    }
  }

  lemma StepRetains(s: Store, e: Step, pages: set<nat>)
    requires Safe(s.tables) && Retained(s.tables) && PagesIn(s.tables, pages)
    requires Documented(s, e) && Retaining(s, e, pages)
    ensures Retained(Apply(s, e).tables) && PagesIn(Apply(s, e).tables, pages)
  {
    hide Safe, SoftCommit, Retained, PagesIn, PurgeBelow, EndRound, PutBack;
    match e
    case Commit(_, _) => CommitRetains(s, e, pages);
    case Snapshot(round) => SnapshotRetains(s.tables, round, pages);
    case Purge(bound) => PurgeRetains(s.tables, bound, pages);
    case Clear => OtherRetains(s.tables, ClearCurrent(s.tables), pages);
    case Checkpointed => OtherRetains(s.tables, Checkpoint(s.tables), pages);
    case Reopened =>
      SameLast(s.tables);
      OtherRetains(s.tables, Reopen(s.tables), pages);
    case Attached =>
    case Remove(_) =>
  }

  lemma SameLast(t: Tables)
    requires Retained(t) && forall r :: r in t.rounds ==> r <= t.checkpointed
    ensures t.checkpointed == t.last
  {
  }

  // ----- counting -----

  ghost function RoundSlots(rounds: map<nat, Table>): set<nat> {
    set r, p | r in rounds && p in rounds[r] :: rounds[r][p]
  }

  ghost function PrivatePages(t: Tables): set<nat> {
    set p | p in t.current && !IsShared(t.current[p])
  }

  ghost function PrivateSlots(t: Tables): map<nat, nat> {
    map p | p in PrivatePages(t) :: SlotOf(t.current[p])
  }

  lemma {:induction false} RoundSlotsCount(rounds: map<nat, Table>, pages: set<nat>)
    requires forall r :: r in rounds ==> rounds[r].Keys <= pages
    ensures |RoundSlots(rounds)| <= |rounds| * |pages|
    decreases |rounds|
  {
    if rounds == map[] {
      assert RoundSlots(rounds) == {};
    } else {
      var r :| r in rounds;
      var rest: map<nat, Table> := rounds - {r};
      assert rest.Keys == rounds.Keys - {r};
      RoundSlotsSplit(rounds, r);
      hide RoundSlots, Outcomes;
      RoundSlotsCount(rest, pages);
      OutcomesAtMost(rounds[r]);
      SubsetCount(rounds[r].Keys, pages);
      UnionCount(RoundSlots(rest), Outcomes(rounds[r]), RoundSlots(rounds));
      OneMore(|rounds|, |rest|, |pages|);
    }
  }

  lemma OneMore(a: nat, b: nat, c: nat)
    requires a == b + 1
    ensures a * c == b * c + c
  {
  }

  lemma RoundSlotsSplit(rounds: map<nat, Table>, r: nat)
    requires r in rounds
    ensures RoundSlots(rounds) == RoundSlots(rounds - {r}) + Outcomes(rounds[r])
  {
    var rest: map<nat, Table> := rounds - {r};
    forall x | x in RoundSlots(rounds) ensures x in RoundSlots(rest) + Outcomes(rounds[r]) {
      var q, p :| q in rounds && p in rounds[q] && rounds[q][p] == x;
      assert q == r || (q in rest && rest[q] == rounds[q]);
    }
    forall x | x in RoundSlots(rest) ensures x in RoundSlots(rounds) {
      var q, p :| q in rest && p in rest[q] && rest[q][p] == x;
      assert q in rounds && p in rounds[q] && rounds[q][p] == x;
    }
  }

  /** A slot that is not free is private to a page, held by a retained round, or lost. */
  lemma InUse(t: Tables, s: nat)
    requires Safe(t) && Retained(t) && s < t.nrSlots && !IsFree(t, s)
    ensures s in Outcomes(PrivateSlots(t)) || s in RoundSlots(t.rounds) || IsLost(t, s)
  {
    hide Words, Disjoint, Spread, Safe;
    if p :| Mapped(t, p, s) {
      SafeValid(t);
      if IsShared(t.current[p]) {
        assert InRound(t, t.last, p, t.current[p]);
      } else {
        assert p in PrivateSlots(t);
      }
    } else if s in t.gc {
      var q :| InRound(t, t.gc[s], q, s);
    }
  }

  /** With K rounds over P pages, q private pages and l lost slots, at most P*K + q + l slots are not
      free. */
  lemma CapacityBound(t: Tables, pages: set<nat>)
    requires Safe(t) && Retained(t) && PagesIn(t, pages)
    ensures t.nrSlots <= |Words(t.free)| + |t.rounds| * |pages| + |PrivatePages(t)| + |LostSlots(t)|
    ensures |PrivatePages(t)| <= |pages|
  {
    hide Words, Safe, Retained, RoundSlots, FreeSlots, Outcomes, IsFree, IsLost;
    var held := RoundSlots(t.rounds) + Outcomes(PrivateSlots(t));
    var used := held + LostSlots(t);
    FreeSlotsCount(t);
    forall s: nat | s in Below(t.nrSlots) ensures s in FreeSlots(t) + used {
      if !IsFree(t, s) { InUse(t, s); }
    }
    UnionCount(FreeSlots(t), used, Below(t.nrSlots));
    UnionCount(held, LostSlots(t), used);
    UnionCount(RoundSlots(t.rounds), Outcomes(PrivateSlots(t)), held);
    RoundSlotsCount(t.rounds, pages);
    assert PrivateSlots(t).Keys == PrivatePages(t);
    OutcomesAtMost(PrivateSlots(t));
    SubsetCount(PrivatePages(t), pages);
  }

  // ----- runs -----

  ghost predicate RetainingRun(s: Store, es: seq<Step>, pages: set<nat>)
    decreases |es|
  {
    es == [] ||
    (Documented(s, es[0]) && Retaining(s, es[0], pages) && RetainingRun(Apply(s, es[0]), es[1..], pages))
  }

  ghost predicate Sound(t: Tables, pages: set<nat>) {
    Safe(t) && GcPending(t) && Retained(t) && PagesIn(t, pages)
  }

  lemma {:induction false} RunRetains(s: Store, es: seq<Step>, pages: set<nat>)
    requires Sound(s.tables, pages) && RetainingRun(s, es, pages)
    ensures DocumentedRun(s, es) && LegalRun(s, es) && Sound(Run(s, es).tables, pages)
    decreases |es|
  {
    hide Possible, InOrder, GcAllows, Retaining, Apply, Safe, GcPending, Retained, PagesIn, Abs, NaiveStep;
    if es != [] {
      PendingStep(s, es[0]);
      StepExact(s, es[0]);
      StepRetains(s, es[0], pages);
      RunRetains(Apply(s, es[0]), es[1..], pages);
    }
  }

  /** After every such run a commit of n pages succeeds as long as P*K + q + n slots exist beyond those
      that were lost. */
  lemma CommitFitsCapacity(s: Store, es: seq<Step>, pages: set<nat>, mem: Memory, ps: seq<nat>)
    requires Sound(s.tables, pages) && RetainingRun(s, es, pages)
    requires forall p :: p in ps ==> p in mem
    ensures DocumentedRun(s, es) && LegalRun(s, es)
    ensures var t := Run(s, es).tables;
      |t.rounds| * |pages| + |PrivatePages(t)| + |LostSlots(s.tables)| + Leaks(s, es) + |ps| <= t.nrSlots ==>
      Possible(Run(s, es), Commit(ps, mem))
  {
    hide Words, Safe, GcPending, IsLost, Retained, PagesIn, SoftCommit, Apply, Documented, Retaining, Leaks;
    RunRetains(s, es, pages);
    RunLeaks(s, es);
    var u := Run(s, es);
    CapacityBound(u.tables, pages);
    CommitCorrect(u, mem, ps);
  }

  /** How often the current state is dropped. */
  function Clears(es: seq<Step>): nat {
    if es == [] then 0 else (if es[0].Clear? then 1 else 0) + Clears(es[1..])
  }

  /** Commits of distinct pages lose nothing, and a clear loses at most as many slots as there are
      pages: no more than one round more would need. */
  lemma {:induction false} LeaksBounded(s: Store, es: seq<Step>, pages: set<nat>)
    requires Sound(s.tables, pages) && RetainingRun(s, es, pages)
    requires forall e :: e in es && e.Commit? ==> forall i, j :: 0 <= i < j < |e.pages| ==> e.pages[i] != e.pages[j]
    ensures DocumentedRun(s, es) && Leaks(s, es) <= Clears(es) * |pages|
    decreases |es|
  {
    hide Possible, InOrder, GcAllows, Retaining, Apply, Safe, GcPending, Retained, PagesIn, Abs, NaiveStep, Leak;
    if es != [] {
      PendingStep(s, es[0]);
      StepExact(s, es[0]);
      StepRetains(s, es[0], pages);
      LeakBounded(s, es[0], pages);
      LeaksBounded(Apply(s, es[0]), es[1..], pages);
      if es[0].Clear? { OneMore(Clears(es), Clears(es[1..]), |pages|); }
    }
  }

  lemma LeakBounded(s: Store, e: Step, pages: set<nat>)
    requires PagesIn(s.tables, pages)
    requires e.Commit? ==> forall i, j :: 0 <= i < j < |e.pages| ==> e.pages[i] != e.pages[j]
    ensures Leak(s, e) <= if e.Clear? then |pages| else 0
  {
    if e.Commit? { RepeatsZero(s.tables.current, e.pages); }
    if e.Clear? { SubsetCount(SharedPages(s.tables), pages); }
  }

  // ----- the sizes the memory manager uses -----

  /** Pages a mapped state can commit: the globals page and the heap. */
  ghost function StatePageSet(): set<nat> {
    Below(MAPPED_PAGES) - Below(GLOBALS_OFFSET)
  }

  lemma StatePageCount()
    ensures |StatePageSet()| == HEAP_LEN + 1
  {
    var all, meta := Below(MAPPED_PAGES), Below(GLOBALS_OFFSET);
    assert meta <= all;
    assert all == (all - meta) + meta;
    assert |all| == |all - meta| + |meta|;
  }

  lemma FreshSound(nrSlots: nat, pages: set<nat>)
    requires 0 < nrSlots <= SLOT_BOUND
    ensures Sound(Fresh(nrSlots), pages)
  {
    hide Words, Disjoint, Spread;
    FreshConserved(nrSlots);
  }

  /** With the sizes in use and K rounds kept, the next commit of distinct state pages succeeds after
      every run in which each round ends once, removal is as documented and stays below the last
      executed round, and (K+2)*P slots are left beyond those that were lost, P being the number of
      state pages. For K up to MAX_ROUNDS - 3 that leaves HEAP_LEN - MAX_ROUNDS + 1 slots to lose. */
  lemma NeverExhausted(es: seq<Step>, mem: Memory, ps: seq<nat>)
    requires RetainingRun(FreshStore(MAX_ROUNDS * HEAP_LEN), es, StatePageSet())
    requires forall p :: p in ps ==> p in mem && p in StatePageSet()
    requires forall i, j :: 0 <= i < j < |ps| ==> ps[i] != ps[j]
    ensures var s := FreshStore(MAX_ROUNDS * HEAP_LEN);
      && DocumentedRun(s, es) && LegalRun(s, es)
      && ((|Run(s, es).tables.rounds| + 2) * (HEAP_LEN + 1) + Leaks(s, es) <= MAX_ROUNDS * HEAP_LEN ==>
          Possible(Run(s, es), Commit(ps, mem)))
      && (|Run(s, es).tables.rounds| <= MAX_ROUNDS - 3 && Leaks(s, es) <= HEAP_LEN - (MAX_ROUNDS - 1) ==>
          Possible(Run(s, es), Commit(ps, mem)))
  {
    hide Words, Safe, GcPending, Retained, PagesIn, SoftCommit, Apply, Documented, Retaining, Leaks;
    var s := FreshStore(MAX_ROUNDS * HEAP_LEN);
    var pages := StatePageSet();
    FreshSound(MAX_ROUNDS * HEAP_LEN, pages);
    RunRetains(s, es, pages);
    var t := Run(s, es).tables;
    CapacityBound(t, pages);
    StatePageCount();
    DistinctCount(ps);
    SubsetCount(Elems(ps), pages);
    RunKeepsSize(s, es);
    FreshLost(MAX_ROUNDS * HEAP_LEN);
    CommitFitsCapacity(s, es, pages, mem, ps);
    hide *;
    RoomFor(|t.rounds|, |PrivatePages(t)|, Leaks(s, es), |ps|);
    RoomLeft(|t.rounds|, Leaks(s, es));
  }

  lemma RoomFor(k: nat, q: nat, lost: nat, n: nat)
    requires q <= HEAP_LEN + 1 && n <= HEAP_LEN + 1
    ensures (k + 2) * (HEAP_LEN + 1) + lost <= MAX_ROUNDS * HEAP_LEN ==>
      k * (HEAP_LEN + 1) + q + lost + n <= MAX_ROUNDS * HEAP_LEN
  {
  }

  /** If commits list no page twice, every upgrade counts like one more round kept. */
  lemma UpgradesFit(es: seq<Step>, mem: Memory, ps: seq<nat>)
    requires RetainingRun(FreshStore(MAX_ROUNDS * HEAP_LEN), es, StatePageSet())
    requires forall e :: e in es && e.Commit? ==> forall i, j :: 0 <= i < j < |e.pages| ==> e.pages[i] != e.pages[j]
    requires forall p :: p in ps ==> p in mem && p in StatePageSet()
    requires forall i, j :: 0 <= i < j < |ps| ==> ps[i] != ps[j]
    ensures var s := FreshStore(MAX_ROUNDS * HEAP_LEN);
      && LegalRun(s, es)
      && ((|Run(s, es).tables.rounds| + Clears(es) + 2) * (HEAP_LEN + 1) <= MAX_ROUNDS * HEAP_LEN ==>
          Possible(Run(s, es), Commit(ps, mem)))
  {
    hide Safe, GcPending, Retained, PagesIn, Possible, RetainingRun, Leaks, Run, LegalRun, DocumentedRun;
    var s := FreshStore(MAX_ROUNDS * HEAP_LEN);
    FreshSound(MAX_ROUNDS * HEAP_LEN, StatePageSet());
    LeaksBounded(s, es, StatePageSet());
    StatePageCount();
    NeverExhausted(es, mem, ps);
    var k := |Run(s, es).tables.rounds| + 2;
    assert (k + Clears(es)) * (HEAP_LEN + 1) == k * (HEAP_LEN + 1) + Clears(es) * (HEAP_LEN + 1);
  }

  lemma RoomLeft(k: nat, lost: nat)
    ensures k <= MAX_ROUNDS - 3 && lost <= HEAP_LEN - (MAX_ROUNDS - 1) ==>
      (k + 2) * (HEAP_LEN + 1) + lost <= MAX_ROUNDS * HEAP_LEN
  {
    if k <= MAX_ROUNDS - 3 {
      assert (k + 2) * (HEAP_LEN + 1) <= (MAX_ROUNDS - 1) * (HEAP_LEN + 1);
    }
  }

  lemma FreshLost(nrSlots: nat)
    requires 0 < nrSlots <= SLOT_BOUND
    ensures LostSlots(Fresh(nrSlots)) == {}
  {
    hide IsLost;
    FreshConserved(nrSlots);
  }

  lemma {:induction false} RunKeepsSize(s: Store, es: seq<Step>)
    requires LegalRun(s, es)
    ensures Run(s, es).tables.nrSlots == s.tables.nrSlots
    decreases |es|
  {
    hide SoftCommit, Possible, InOrder, GcAllows;
    if es != [] {
      StepKeepsSize(s, es[0]);
      RunKeepsSize(Apply(s, es[0]), es[1..]);
    }
  }

  lemma StepKeepsSize(s: Store, e: Step)
    requires Possible(s, e)
    ensures Apply(s, e).tables.nrSlots == s.tables.nrSlots
  {
  }
}

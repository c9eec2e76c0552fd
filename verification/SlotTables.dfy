/** The slot manager's tables as a value, what each of its operations does to them, and the
    invariant that every operation keeps. */
module SlotTables {
  import opened SlotWords
  import opened FreeLists
  import opened RangeMaps

  /** `current` is the open round, `rounds` the completed ones, `gc` maps an overwritten slot to the
      round that was last executed when it was overwritten. */
  datatype Tables = Tables(
    nrSlots: nat,
    free: FreeList,
    current: Table,
    rounds: map<nat, Table>,
    gc: map<nat, nat>,
    last: nat,
    checkpointed: nat)

  /** A page's new word and the slot it replaces, INVALID_SLOT when it replaces none. */
  type Puts = map<nat, (nat, nat)>

  // ----- operations -----

  function Fresh(nrSlots: nat): Tables {
    Tables(nrSlots, map[0 := nrSlots], map[], map[], map[], 0, 0)
  }

  function Overwritten(puts: Puts): set<nat> {
    set p | p in puts && puts[p].1 != INVALID_SLOT :: puts[p].1
  }

  /** The published pages with their new words, marked private so that later writes go in place. */
  function Published(puts: Puts): Table {
    map p | p in puts :: MarkPrivate(puts[p].0)
  }

  function Dropped(slots: set<nat>, round: nat): map<nat, nat> {
    map s | s in slots :: round
  }

  function PutMappings(t: Tables, puts: Puts): Tables {
    t.(current := t.current + Published(puts), gc := t.gc + Dropped(Overwritten(puts), t.last))
  }

  function Freeze(t: Table): Table {
    map p | p in t :: Share(t[p])
  }

  /** Opening the round's own table finds an old one of the same number, if there is one. */
  function Opened(rounds: map<nat, Table>, round: nat): Table {
    if round in rounds then rounds[round] else map[]
  }

  function EndRound(t: Tables, round: nat): Tables {
    t.(current := Freeze(t.current),
       rounds := t.rounds[round := Opened(t.rounds, round) + Freeze(t.current)],
       last := round)
  }

  function Expiring(t: Tables, bound: nat): set<nat> {
    set s | s in t.gc && t.gc[s] < bound
  }

  function Kept(rounds: map<nat, Table>, bound: nat): map<nat, Table> {
    map r | r in rounds && r >= bound :: rounds[r]
  }

  /** The operation as it stands: what expires is freed but stays in the gc table. */
  function RemoveBelow(t: Tables, bound: nat): Tables {
    t.(free := PutBack(t.free, Expiring(t, bound)), rounds := Kept(t.rounds, bound))
  }

  /** The operation as its comment describes it: what is freed leaves the gc table too. */
  function PurgeBelow(t: Tables, bound: nat): Tables {
    RemoveBelow(t, bound).(gc := t.gc - Expiring(t, bound))
  }

  function PrivateWords(t: Table): set<nat> {
    set p | p in t && !IsShared(t[p]) :: t[p]
  }

  /** The private words go to the free list with their tag still on. */
  function ClearCurrent(t: Tables): Tables {
    t.(free := PutBack(t.free, PrivateWords(t.current)), current := map[])
  }

  function Checkpoint(t: Tables): Tables {
    t.(checkpointed := t.last)
  }

  function Reopen(t: Tables): Tables {
    t.(last := t.checkpointed)
  }

  // ----- what the tables say about a slot -----

  ghost predicate Mapped(t: Tables, p: nat, s: nat) {
    p in t.current && SlotOf(t.current[p]) == s
  }

  ghost predicate InCurrent(t: Tables, s: nat) {
    exists p :: Mapped(t, p, s)
  }

  ghost predicate InRound(t: Tables, r: nat, p: nat, s: nat) {
    r in t.rounds && p in t.rounds[r] && t.rounds[r][p] == s
  }

  /** The slot is on the free list, with or without the tag. */
  ghost predicate IsFree(t: Tables, s: nat) {
    s in Words(t.free) || s + TAG in Words(t.free)
  }

  // ----- the invariant -----

  ghost predicate InBounds(t: Tables) {
    && t.nrSlots <= SLOT_BOUND
    && (forall p :: p in t.current ==> t.current[p] != INVALID_SLOT)
    && (forall p, s: nat :: Mapped(t, p, s) ==> s < t.nrSlots)
    && (forall r, p, s: nat :: InRound(t, r, p, s) ==> s < t.nrSlots)
    && (forall s :: s in t.gc ==> s < t.nrSlots)
  }

  ghost predicate FreeListOk(t: Tables) {
    && Disjoint(t.free)
    && (forall w :: w in Words(t.free) ==> w < t.nrSlots || TAG <= w < TAG + t.nrSlots)
    && (forall s :: s in Words(t.free) ==> s + TAG !in Words(t.free))
    && (forall s :: s in t.gc ==> !Spread(t.free, s))
  }

  ghost predicate FreeUnused(t: Tables) {
    && (forall p, s: nat :: Mapped(t, p, s) ==> !IsFree(t, s))
    && (forall r, p, s: nat :: InRound(t, r, p, s) ==> !IsFree(t, s))
  }

  ghost predicate OnePage(t: Tables) {
    forall p, q, s :: Mapped(t, p, s) && Mapped(t, q, s) ==> p == q
  }

  ghost predicate PrivateInNoRound(t: Tables) {
    forall p, s, r, q :: Mapped(t, p, s) && InRound(t, r, q, s) ==> IsShared(t.current[p])
  }

  /** An overwritten slot is used by no round that ended after it was overwritten. */
  ghost predicate GcHistory(t: Tables) {
    forall s, r, q :: s in t.gc && InRound(t, r, q, s) ==> r <= t.gc[s] || InCurrent(t, s)
  }

  /** No slot that the current table maps is used by a round after the given one. */
  ghost predicate NoneLater(t: Tables, round: nat) {
    forall r: nat, q: nat, s: nat :: InRound(t, r, q, s) && InCurrent(t, s) ==> r <= round
  }

  ghost predicate Safe(t: Tables) {
    && InBounds(t)
    && FreeListOk(t)
    && FreeUnused(t)
    && OnePage(t)
    && PrivateInNoRound(t)
    && GcHistory(t)
    && NoneLater(t, t.last)
  }

  // ----- every operation keeps it -----

  lemma FreshSafe(nrSlots: nat)
    requires 0 < nrSlots <= SLOT_BOUND
    ensures Safe(Fresh(nrSlots))
    ensures forall w: nat :: w in Words(Fresh(nrSlots).free) <==> w < nrSlots
  {
    var f: FreeList := map[0 := nrSlots];
    assert f - {0} == map[];
    CoveredStep(f, 0);
  }

  lemma EndRoundSafe(t: Tables, round: nat)
    requires Safe(t) && NoneLater(t, round)
    ensures Safe(EndRound(t, round))
  {
    hide Words, Disjoint, Spread;
    var u := EndRound(t, round);
    SameCurrent(t, u);
    forall r, p, s ensures InRound(u, r, p, s) ==> InRound(t, r, p, s) || (r == round && Mapped(t, p, s)) {}
  }

  /** A round may be ended exactly when no later one shares a slot with the current table. */
  lemma EndRoundExact(t: Tables, round: nat)
    requires Safe(t)
    ensures Safe(EndRound(t, round)) <==> NoneLater(t, round)
  {
    hide FreeListOk, FreeUnused, GcHistory;
    var u := EndRound(t, round);
    if NoneLater(t, round) {
      EndRoundSafe(t, round);
    }
    if Safe(u) {
      SameCurrent(t, u);
      forall r: nat, q: nat, s: nat | InRound(t, r, q, s) && InCurrent(t, s) ensures r <= round {
        assert r != round ==> InRound(u, r, q, s);
      }
    }
  }

  lemma SameCurrent(t: Tables, u: Tables)
    requires forall p :: p in t.current ==> t.current[p] != INVALID_SLOT
    requires u.current == t.current || u.current == Freeze(t.current)
    ensures forall p, s :: Mapped(u, p, s) <==> Mapped(t, p, s)
    ensures forall s :: InCurrent(u, s) <==> InCurrent(t, s)
  {
    forall p, s ensures Mapped(u, p, s) <==> Mapped(t, p, s) {}
    forall s ensures InCurrent(u, s) <==> InCurrent(t, s) {
      if p :| Mapped(t, p, s) { assert Mapped(u, p, s); }
      if p :| Mapped(u, p, s) { assert Mapped(t, p, s); }
    }
  }

  /** No slot that is about to be freed is mapped now, or on the free list with its tag on. */
  ghost predicate CleanExpiry(t: Tables, bound: nat) {
    forall s: nat :: s in Expiring(t, bound) ==> !InCurrent(t, s) && s + TAG !in Words(t.free)
  }

  lemma RemoveFreeList(t: Tables, bound: nat)
    requires FreeListOk(t)
    ensures var u := RemoveBelow(t, bound);
      && Disjoint(u.free)
      && (forall x: nat :: x in Words(u.free) <==> x in Words(t.free) || x in Expiring(t, bound))
      && (forall x: nat :: Spread(u.free, x) ==> Spread(t.free, x))
  {
    hide Words, Disjoint, Spread;
    PutBackAgain(t.free, Expiring(t, bound));
  }

  lemma RemoveKeepsRounds(t: Tables, bound: nat)
    ensures forall r: nat, p: nat, s: nat ::
      InRound(RemoveBelow(t, bound), r, p, s) <==> r >= bound && InRound(t, r, p, s)
  {
  }

  lemma RemoveKeepsFree(t: Tables, bound: nat)
    requires Safe(t) && CleanExpiry(t, bound)
    ensures FreeUnused(RemoveBelow(t, bound))
  {
    hide Words, Disjoint, Spread, OnePage, PrivateInNoRound, NoneLater, RemoveBelow;
    var u := RemoveBelow(t, bound);
    RemoveFreeList(t, bound);
    RemoveKeepsRounds(t, bound);
    forall p, s: nat | Mapped(u, p, s) ensures !IsFree(u, s) {
      assert u.current == t.current by { RemoveKeepsCurrent(t, bound); }
      assert Mapped(t, p, s) && InCurrent(t, s) && !IsFree(t, s);
    }
    forall r: nat, p: nat, s: nat | InRound(u, r, p, s) ensures !IsFree(u, s) {
      assert InRound(t, r, p, s) && !IsFree(t, s);
      assert s in t.gc ==> r <= t.gc[s] || InCurrent(t, s);
    }
  }

  lemma RemoveKeepsCurrent(t: Tables, bound: nat)
    ensures RemoveBelow(t, bound).current == t.current
  {
  }

  lemma RemoveBelowSafe(t: Tables, bound: nat)
    requires Safe(t) && CleanExpiry(t, bound)
    ensures Safe(RemoveBelow(t, bound))
  {
    hide Words, Disjoint, Spread, FreeUnused;
    RemoveKeepsFree(t, bound);
    RemoveFreeList(t, bound);
    RemoveKeepsRounds(t, bound);
    SameCurrent(t, RemoveBelow(t, bound));
  }

  /** The operation as it stands is safe exactly when no slot it frees is still in use. */
  lemma RemoveBelowExact(t: Tables, bound: nat)
    requires Safe(t)
    ensures Safe(RemoveBelow(t, bound)) <==> CleanExpiry(t, bound)
  {
    hide Words, Disjoint, Spread;
    var u := RemoveBelow(t, bound);
    if CleanExpiry(t, bound) {
      RemoveBelowSafe(t, bound);
    }
    if Safe(u) {
      RemoveFreeList(t, bound);
      SameCurrent(t, u);
      forall s | s in Expiring(t, bound) ensures !InCurrent(t, s) && s + TAG !in Words(t.free) {
        assert s in Words(u.free);
        assert IsFree(u, s);
      }
    }
  }

  /** No gc entry is left over from a slot that was freed or is in use again. */
  ghost predicate GcPending(t: Tables) {
    forall s :: s in t.gc ==> !InCurrent(t, s) && !IsFree(t, s)
  }

  lemma FewerGcSafe(t: Tables, gone: set<nat>)
    requires Safe(t)
    ensures Safe(t.(gc := t.gc - gone))
  {
    hide Words, Disjoint, Spread;
    var u := t.(gc := t.gc - gone);
    SameCurrent(t, u);
    forall r, p, s ensures InRound(u, r, p, s) <==> InRound(t, r, p, s) {}
  }

  /** Deleting the freed entries does not make a removal safe that was not. */
  lemma PurgeBelowExact(t: Tables, bound: nat)
    requires Safe(t)
    ensures Safe(PurgeBelow(t, bound)) <==> CleanExpiry(t, bound)
  {
    hide Words, Disjoint, Spread, Mapped, InRound;
    var u := PurgeBelow(t, bound);
    if CleanExpiry(t, bound) {
      RemoveBelowSafe(t, bound);
      FewerGcSafe(RemoveBelow(t, bound), Expiring(t, bound));
    }
    if Safe(u) {
      RemoveFreeList(t, bound);
      SameCurrent(t, u);
      forall s | s in Expiring(t, bound) ensures !InCurrent(t, s) && s + TAG !in Words(t.free) {
        assert s in Words(u.free);
        assert IsFree(u, s);
      }
    }
  }

  /** But where no entry is stale it is safe, and it leaves none that is. */
  lemma PurgeBelowSafe(t: Tables, bound: nat)
    requires Safe(t) && GcPending(t)
    ensures CleanExpiry(t, bound)
    ensures Safe(PurgeBelow(t, bound)) && GcPending(PurgeBelow(t, bound))
  {
    hide Words, Disjoint, Spread, Mapped, InRound;
    RemoveBelowSafe(t, bound);
    FewerGcSafe(RemoveBelow(t, bound), Expiring(t, bound));
    RemoveFreeList(t, bound);
    SameCurrent(t, PurgeBelow(t, bound));
  }

  lemma ClearFreeList(t: Tables)
    requires Safe(t)
    ensures var u := ClearCurrent(t);
      && Disjoint(u.free)
      && (forall x: nat :: x in Words(u.free) <==> x in Words(t.free) || x in PrivateWords(t.current))
      && (forall x: nat :: Spread(u.free, x) ==> Spread(t.free, x))
  {
    hide Words, Disjoint, Spread;
    var ws := PrivateWords(t.current);
    forall w | w in ws ensures w !in Words(t.free) && !Spread(t.free, w) {
      var p :| p in t.current && !IsShared(t.current[p]) && t.current[p] == w;
      assert Mapped(t, p, SlotOf(w)) && SlotOf(w) + TAG == w;
      SpreadIsWord(t.free, w);
    }
    PutBackAgain(t.free, ws);
  }

  /** A private word is the tagged form of a slot in bounds, of a page mapped to it. */
  lemma PrivateWord(t: Tables, w: nat)
    requires InBounds(t) && w in PrivateWords(t.current)
    ensures TAG <= w < TAG + t.nrSlots
    ensures exists p :: Mapped(t, p, w - TAG) && !IsShared(t.current[p])
  {
    var p :| p in t.current && !IsShared(t.current[p]) && t.current[p] == w;
    assert Mapped(t, p, w - TAG);
  }

  lemma ClearKeepsFreeList(t: Tables)
    requires Safe(t)
    ensures FreeListOk(ClearCurrent(t))
  {
    hide Words, Disjoint, Spread, PrivateWords, PrivateInNoRound, GcHistory, OnePage;
    ClearFreeList(t);
    forall w | w in PrivateWords(t.current)
      ensures TAG <= w < TAG + t.nrSlots && w - TAG !in Words(t.free)
    {
      PrivateWord(t, w);
    }
  }

  lemma ClearKeepsFree(t: Tables)
    requires Safe(t)
    ensures FreeUnused(ClearCurrent(t))
  {
    hide Words, Disjoint, Spread, PrivateWords, GcHistory, OnePage;
    var u := ClearCurrent(t);
    ClearFreeList(t);
    forall r, p, s: nat | InRound(u, r, p, s) ensures !IsFree(u, s) {
      assert InRound(t, r, p, s);
      if s in PrivateWords(t.current) { PrivateWord(t, s); }
      if s + TAG in PrivateWords(t.current) { PrivateWord(t, s + TAG); }
    }
  }

  /** Every gc entry is exact: no round that ended after it was made uses the slot. */
  ghost predicate GcExact(t: Tables) {
    forall s, r, q :: s in t.gc && InRound(t, r, q, s) ==> r <= t.gc[s]
  }

  lemma ClearCurrentSafe(t: Tables)
    requires Safe(t) && GcExact(t)
    ensures Safe(ClearCurrent(t))
  {
    hide FreeListOk, FreeUnused, PrivateWords, PutBack;
    ClearKeepsFreeList(t);
    ClearKeepsFree(t);
    forall r, p, s ensures InRound(ClearCurrent(t), r, p, s) <==> InRound(t, r, p, s) {}
  }

  /** Dropping the current table is safe exactly when every gc entry is exact: an entry whose slot was
      in use again only kept it from being freed as long as the current table held it. */
  lemma ClearCurrentExact(t: Tables)
    requires Safe(t)
    ensures Safe(ClearCurrent(t)) <==> GcExact(t)
  {
    hide FreeListOk, FreeUnused, PrivateWords, PutBack;
    var u := ClearCurrent(t);
    if GcExact(t) {
      ClearCurrentSafe(t);
    }
    if Safe(u) {
      forall s, r, q | s in t.gc && InRound(t, r, q, s) ensures r <= t.gc[s] {
        assert InRound(u, r, q, s) && !InCurrent(u, s);
      }
    }
  }

  /** Reopening is safe exactly when no round after the checkpointed one shares a slot with the current
      table. */
  lemma ReopenExact(t: Tables)
    requires Safe(t)
    ensures Safe(Reopen(t)) <==> NoneLater(t, t.checkpointed)
  {
    hide Words, Disjoint, Spread;
    var u := Reopen(t);
    SameCurrent(t, u);
    forall r, p, s ensures InRound(u, r, p, s) <==> InRound(t, r, p, s) {}
  }

  // ----- publishing a commit -----

  /** Each page is about to get a word of its own among those taken off the free list. */
  ghost predicate PutsNew(taken: set<nat>, puts: Puts) {
    && (forall p :: p in puts ==> puts[p].0 in taken)
    && (forall p, q :: p in puts && q in puts && puts[p].0 == puts[q].0 ==> p == q)
  }

  /** And it moves from the shared slot it has in the current table, or from none. */
  ghost predicate PutsFit(t: Tables, taken: set<nat>, puts: Puts) {
    PutsNew(taken, puts) && forall p :: p in puts ==> TableInfo(t.current, p) == (true, puts[p].1)
  }

  /** The free list after a commit kept some of the words it had allocated. */
  ghost predicate Took(before: FreeList, taken: set<nat>, after: FreeList) {
    && Disjoint(after)
    && taken <= Words(before)
    && Words(after) == Words(before) - taken
    && (forall x: nat :: Spread(after, x) ==> Spread(before, x))
  }

  lemma PutsMapped(t: Tables, f: FreeList, puts: Puts, p: nat, s: nat)
    ensures Mapped(PutMappings(t.(free := f), puts), p, s) <==>
      if p in puts then SlotOf(puts[p].0) == s else Mapped(t, p, s)
  {
  }

  /** A word taken off the free list names a slot that nothing uses. */
  lemma TakenUnused(t: Tables, w: nat)
    requires Safe(t) && w in Words(t.free)
    ensures w != INVALID_SLOT && w < WORDS && SlotOf(w) < t.nrSlots
    ensures forall p :: !Mapped(t, p, SlotOf(w))
    ensures forall r, q :: !InRound(t, r, q, SlotOf(w))
  {
    hide Words, Disjoint, Spread;
    assert IsFree(t, SlotOf(w));
  }

  lemma TakenDistinct(t: Tables, v: nat, w: nat)
    requires Safe(t) && v in Words(t.free) && w in Words(t.free) && SlotOf(v) == SlotOf(w)
    ensures v == w
  {
    hide Words, Disjoint, Spread;
    assert v < WORDS && w < WORDS;
    assert v == w || v == w + TAG || w == v + TAG;
  }

  lemma PublishKeepsPages(t: Tables, f: FreeList, taken: set<nat>, puts: Puts)
    requires Safe(t) && Took(t.free, taken, f) && PutsNew(taken, puts)
    ensures var u := PutMappings(t.(free := f), puts);
      && OnePage(u)
      && PrivateInNoRound(u)
      && NoneLater(u, u.last)
      && (forall p, s: nat :: Mapped(u, p, s) ==> s < t.nrSlots && u.current[p] != INVALID_SLOT)
  {
    hide Words, Disjoint, Spread;
    var u := PutMappings(t.(free := f), puts);
    forall p, s: nat | Mapped(u, p, s) ensures s < t.nrSlots && u.current[p] != INVALID_SLOT {
      PutsMapped(t, f, puts, p, s);
      if p in puts { TakenUnused(t, puts[p].0); }
    }
    forall p, q, s | Mapped(u, p, s) && Mapped(u, q, s) ensures p == q {
      PutsMapped(t, f, puts, p, s);
      PutsMapped(t, f, puts, q, s);
      if p in puts { TakenUnused(t, puts[p].0); }
      if q in puts { TakenUnused(t, puts[q].0); }
      if p in puts && q in puts { TakenDistinct(t, puts[p].0, puts[q].0); }
    }
    forall p, s, r, q | Mapped(u, p, s) && InRound(u, r, q, s) ensures IsShared(u.current[p]) {
      PutsMapped(t, f, puts, p, s);
      assert InRound(t, r, q, s);
      if p in puts { TakenUnused(t, puts[p].0); }
    }
    forall r: nat, q: nat, s: nat | InRound(u, r, q, s) && InCurrent(u, s) ensures r <= u.last {
      assert InRound(t, r, q, s);
      var p :| Mapped(u, p, s);
      PutsMapped(t, f, puts, p, s);
      if p in puts { TakenUnused(t, puts[p].0); } else { assert InCurrent(t, s); }
    }
  }

  /** A word handed out is the only form of its slot on the free list. */
  lemma TakenNotFree(t: Tables, f: FreeList, taken: set<nat>, w: nat, s: nat)
    requires Safe(t) && Took(t.free, taken, f) && w in taken && SlotOf(w) == s
    ensures s !in Words(f) && s + TAG !in Words(f)
  {
    hide Words, Disjoint, Spread, Safe;
    TakenUnused(t, w);
    if s in Words(f) { TakenDistinct(t, s, w); }
    if s + TAG in Words(f) { TakenDistinct(t, s + TAG, w); }
  }

  lemma PublishKeepsFree(t: Tables, f: FreeList, taken: set<nat>, puts: Puts)
    requires Safe(t) && Took(t.free, taken, f) && PutsNew(taken, puts)
    ensures FreeUnused(PutMappings(t.(free := f), puts))
  {
    hide Words, Disjoint, Spread, OnePage, PrivateInNoRound, GcHistory, FreeListOk;
    var u := PutMappings(t.(free := f), puts);
    forall p, s: nat | Mapped(u, p, s) ensures !IsFree(u, s) {
      PutsMapped(t, f, puts, p, s);
      if p in puts {
        TakenNotFree(t, f, taken, puts[p].0, s);
      } else {
        assert !IsFree(t, s);
      }
    }
    forall r, p, s | InRound(u, r, p, s) ensures !IsFree(u, s) {
      assert InRound(t, r, p, s);
    }
  }

  /** An overwritten slot was mapped, shared, by the page that gave it up. */
  lemma OverwrittenWasMapped(t: Tables, taken: set<nat>, puts: Puts, s: nat) returns (p: nat)
    requires PutsFit(t, taken, puts) && s in Overwritten(puts)
    ensures p in puts && Mapped(t, p, s) && IsShared(t.current[p])
  {
    p :| p in puts && puts[p].1 != INVALID_SLOT && puts[p].1 == s;
    assert TableInfo(t.current, p) == (true, s);
  }

  lemma PublishKeepsGc(t: Tables, f: FreeList, taken: set<nat>, puts: Puts)
    requires Safe(t) && Took(t.free, taken, f) && PutsFit(t, taken, puts)
    ensures var u := PutMappings(t.(free := f), puts);
      && GcHistory(u)
      && (forall s :: s in u.gc ==> s < t.nrSlots && !Spread(f, s))
  {
    hide Words, Disjoint, Spread;
    var u := PutMappings(t.(free := f), puts);
    forall s | s in u.gc ensures s < t.nrSlots && !Spread(f, s) {
      if s in Overwritten(puts) {
        var p := OverwrittenWasMapped(t, taken, puts, s);
        assert !IsFree(t, s);
        SpreadIsWord(t.free, s);
      }
    }
    forall s, r, q | s in u.gc && InRound(u, r, q, s) ensures r <= u.gc[s] || InCurrent(u, s) {
      assert InRound(t, r, q, s);
      if s in Overwritten(puts) {
        var p := OverwrittenWasMapped(t, taken, puts, s);
        assert InCurrent(t, s);
      } else if r > t.gc[s] {
        var p :| Mapped(t, p, s);
        assert TableInfo(t.current, p) == (IsShared(t.current[p]), s);
        PutsMapped(t, f, puts, p, s);
        assert Mapped(u, p, s);
      }
    }
  }

  lemma PublishSafe(t: Tables, f: FreeList, taken: set<nat>, puts: Puts)
    requires Safe(t) && Took(t.free, taken, f) && PutsFit(t, taken, puts)
    ensures Safe(PutMappings(t.(free := f), puts))
  {
    hide Words, Disjoint, Spread;
    PublishKeepsPages(t, f, taken, puts);
    PublishKeepsFree(t, f, taken, puts);
    PublishKeepsGc(t, f, taken, puts);
    var u := PutMappings(t.(free := f), puts);
    forall p | p in u.current ensures u.current[p] != INVALID_SLOT {
      assert Mapped(u, p, SlotOf(u.current[p]));
    }
    forall r: nat, p: nat, s: nat | InRound(u, r, p, s) ensures s < u.nrSlots {
      assert InRound(t, r, p, s);
    }
  }

  /** A slot that is not free, and that no page keeps, is not mapped after publishing. */
  lemma NotPublished(t: Tables, f: FreeList, taken: set<nat>, puts: Puts, s: nat)
    requires Safe(t) && Took(t.free, taken, f) && PutsNew(taken, puts)
    requires !IsFree(t, s) && forall p :: Mapped(t, p, s) ==> p in puts
    ensures !InCurrent(PutMappings(t.(free := f), puts), s)
  {
    hide Words, Disjoint, Spread, Safe;
    var u := PutMappings(t.(free := f), puts);
    forall q ensures !Mapped(u, q, s) {
      PutsMapped(t, f, puts, q, s);
      if q in puts {
        TakenUnused(t, puts[q].0);
        assert puts[q].0 in Words(t.free);
      }
    }
  }

  lemma PublishPending(t: Tables, f: FreeList, taken: set<nat>, puts: Puts)
    requires Safe(t) && Took(t.free, taken, f) && PutsFit(t, taken, puts) && GcPending(t)
    ensures GcPending(PutMappings(t.(free := f), puts))
  {
    hide Words, Disjoint, Spread, PutsNew;
    var u := PutMappings(t.(free := f), puts);
    forall s | s in u.gc ensures !InCurrent(u, s) && !IsFree(u, s) {
      if s in Overwritten(puts) {
        var p := OverwrittenWasMapped(t, taken, puts, s);
        assert !IsFree(t, s);
        assert forall q :: Mapped(t, q, s) ==> q == p;
      } else {
        assert !InCurrent(t, s);
      }
      NotPublished(t, f, taken, puts, s);
    }
  }
}

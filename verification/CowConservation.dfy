/** Runs in which removal deletes what it frees: no gc entry ever goes stale. Which slots a step loses,
    exactly, and that they stay lost. */
module CowConservation {
  import opened SlotWords
  import opened SortedTables
  import opened Counting
  import opened FreeLists
  import opened RangeMaps
  import opened SlotTables
  import opened CowStore
  import opened StatePages
  import opened CowRuns

  /** A run of steps that do not panic and keep the callers' order, with removal as documented. */
  ghost predicate DocumentedRun(s: Store, es: seq<Step>)
    decreases |es|
  {
    es == [] || (Documented(s, es[0]) && DocumentedRun(Apply(s, es[0]), es[1..]))
  }

  ghost predicate Documented(s: Store, e: Step) {
    Possible(s, e) && InOrder(s, e) && !e.Remove?
  }

  // ----- no stale gc entry -----

  /** A commit that did not run out of free words, taken apart. */
  lemma CommitParts(s: Store, mem: Memory, pages: seq<nat>) returns (words: seq<nat>, left: FreeList, w: Writing)
    requires Safe(s.tables) && forall p :: p in pages ==> p in mem
    requires SoftCommit(s, s.tables.current, mem, pages).Some?
    ensures AtPoint(s, mem, pages, |pages|, words, left, w)
    ensures |w.pool| <= |words|
    ensures Took(s.tables.free, Elems(Used(words, w.pool)), PutBack(left, Elems(w.pool)))
    ensures PutsFit(s.tables, Elems(Used(words, w.pool)), w.puts)
    ensures SoftCommit(s, s.tables.current, mem, pages).value ==
            Store(PutMappings(s.tables.(free := PutBack(left, Elems(w.pool))), w.puts),
                  w.file, GrowFile(s, |pages|).fileLen, s.written + |w.puts| * PAGE_SIZE)
    ensures PutsWell(s.tables.current, words, pages, w)
  {
    hide Words, Disjoint, Spread, Safe, Alloc, WritePages, Took, PutsFit, PutBack, Elems, PutMappings, Apart, PutsWell;
    var r := Alloc(s.tables.free, |pages|).value;
    words, left := r.0, r.1;
    w := WritePages(s.tables.current, mem, Writing(words, s.file, map[]), pages);
    assert pages[..|pages|] == pages;
    assert AtPoint(s, mem, pages, |pages|, words, left, w);
    PointFacts(s, mem, pages, |pages|, words, left, w);
    CommitPointSafe(s, mem, pages, |pages|, words, left, w);
    CommitFits(s, mem, pages, words, left, w);
  }

  lemma PutsKeys(seen: Table, words: seq<nat>, init: seq<nat>, w: Writing)
    requires PutsWell(seen, words, init, w)
    ensures forall p :: p in w.puts ==> p in init
  {
  }

  lemma CommitPending(s: Store, e: Step)
    requires Safe(s.tables) && GcPending(s.tables) && e.Commit? && Possible(s, e)
    ensures GcPending(Apply(s, e).tables)
  {
    hide Safe, GcPending, SoftCommit, Took, PutsFit, AtPoint, PutsWell;
    var words, left, w := CommitParts(s, e.mem, e.pages);
    PublishPending(s.tables, PutBack(left, Elems(w.pool)), Elems(Used(words, w.pool)), w.puts);
  }

  lemma PendingExact(t: Tables)
    requires Safe(t) && GcPending(t)
    ensures GcExact(t)
  {
    hide Words, Disjoint, Spread;
  }

  lemma ClearPending(t: Tables)
    requires Safe(t) && GcPending(t)
    ensures GcPending(ClearCurrent(t))
  {
    hide Words, Disjoint, Spread;
    var u := ClearCurrent(t);
    ClearFreeList(t);
    forall s | s in u.gc ensures !InCurrent(u, s) && !IsFree(u, s) {
      assert s < t.nrSlots && !InCurrent(t, s);
      forall w | w in PrivateWords(t.current) ensures w != s && w != s + TAG {
        var p :| p in t.current && !IsShared(t.current[p]) && t.current[p] == w;
        assert Mapped(t, p, w - TAG);
      }
    }
  }

  lemma PendingStep(s: Store, e: Step)
    requires Safe(s.tables) && GcPending(s.tables) && Documented(s, e)
    ensures Legal(s, e) && GcPending(Apply(s, e).tables)
  {
    hide Safe, SoftCommit, PutBack, Words;
    PendingExact(s.tables);
    match e
    case Commit(_, _) => CommitPending(s, e);
    case Snapshot(round) =>
      SafeValid(s.tables);
      SameCurrent(s.tables, EndRound(s.tables, round));
    case Purge(bound) => PurgeBelowSafe(s.tables, bound);
    case Clear => ClearPending(s.tables);
    case Checkpointed =>
      SafeValid(s.tables);
      SameCurrent(s.tables, Checkpoint(s.tables));
    case Reopened =>
      SafeValid(s.tables);
      SameCurrent(s.tables, Reopen(s.tables));
    case Attached =>
    case Remove(_) =>
  }

  /** Deleting what is freed is enough: then every run in the callers' order is legal, and so refines
      the naive store. */
  lemma {:induction false} DocumentedRunLegal(s: Store, es: seq<Step>)
    requires Safe(s.tables) && GcPending(s.tables) && DocumentedRun(s, es)
    ensures LegalRun(s, es)
    ensures Safe(Run(s, es).tables) && GcPending(Run(s, es).tables)
    decreases |es|
  {
    hide Safe, GcPending, Possible, InOrder, GcAllows, Abs, NaiveStep, Apply;
    if es != [] {
      PendingStep(s, es[0]);
      StepExact(s, es[0]);
      DocumentedRunLegal(Apply(s, es[0]), es[1..]);
    }
  }

  // ----- lost slots -----

  /** The slot is not free, not mapped and not waiting to be collected. */
  ghost predicate IsLost(t: Tables, s: nat) {
    s < t.nrSlots && !IsFree(t, s) && !InCurrent(t, s) && s !in t.gc
  }

  ghost function LostSlots(t: Tables): (lost: set<nat>)
    ensures forall s: nat :: s in lost <==> IsLost(t, s)
  {
    set s | s in Below(t.nrSlots) && IsLost(t, s)
  }

  /** Every slot is free, mapped, or waiting to be collected. With `Safe` and `GcPending` it is
      exactly one of the three. */
  ghost predicate Conserved(t: Tables) {
    forall s: nat :: !IsLost(t, s)
  }

  lemma SmallSlot(t: Tables, s: nat)
    requires Safe(t) && s < t.nrSlots
    ensures SlotOf(s) == s && SlotOf(s + TAG) == s && s + TAG < WORDS
  {
  }

  // ----- what a commit loses -----

  ghost predicate Unmapped(puts: Puts, word: nat) {
    forall p :: p in puts ==> puts[p].0 != word
  }

  /** The slot of a word that was taken off the free list and is not going to be mapped. */
  ghost predicate GivenUp(taken: set<nat>, puts: Puts, s: nat) {
    exists x :: x in taken && Unmapped(puts, x) && SlotOf(x) == s
  }

  lemma PutMappingsFrame(t: Tables, puts: Puts)
    ensures var u := PutMappings(t, puts);
      u.nrSlots == t.nrSlots && u.free == t.free && forall s :: s in u.gc <==> s in t.gc || s in Overwritten(puts)
  {
  }

  lemma PublishKeepsLost(t: Tables, f: FreeList, taken: set<nat>, puts: Puts, s: nat)
    requires Safe(t) && Took(t.free, taken, f) && PutsFit(t, taken, puts) && IsLost(t, s)
    ensures IsLost(PutMappings(t.(free := f), puts), s)
  {
    hide Words, Disjoint, Spread, Safe, PutMappings;
    var u := PutMappings(t.(free := f), puts);
    PutMappingsFrame(t.(free := f), puts);
    forall p ensures !Mapped(u, p, s) {
      PutsMapped(t, f, puts, p, s);
      if p in puts { TakenUnused(t, puts[p].0); }
    }
    if s in Overwritten(puts) {
      var p := OverwrittenWasMapped(t, taken, puts, s);
    }
  }

  /** Such a slot is neither free nor mapped afterwards. */
  lemma GivenUpGone(t: Tables, f: FreeList, taken: set<nat>, puts: Puts, s: nat)
    requires Safe(t) && Took(t.free, taken, f) && PutsNew(taken, puts) && GivenUp(taken, puts, s)
    ensures var u := PutMappings(t.(free := f), puts); !IsFree(u, s) && !InCurrent(u, s)
    ensures s < t.nrSlots && IsFree(t, s)
  {
    hide Words, Disjoint, Spread, Safe;
    var u := PutMappings(t.(free := f), puts);
    var x :| x in taken && Unmapped(puts, x) && SlotOf(x) == s;
    TakenUnused(t, x);
    SmallSlot(t, s);
    assert !IsFree(u, s) by {
      forall v | v in Words(f) && SlotOf(v) == s ensures false {
        TakenDistinct(t, v, x);
      }
    }
    forall p ensures !Mapped(u, p, s) {
      PutsMapped(t, f, puts, p, s);
      if p in puts && SlotOf(puts[p].0) == s { TakenDistinct(t, puts[p].0, x); }
    }
  }

  lemma PublishGivesUp(t: Tables, f: FreeList, taken: set<nat>, puts: Puts, s: nat)
    requires Safe(t) && GcPending(t) && Took(t.free, taken, f) && PutsFit(t, taken, puts) && GivenUp(taken, puts, s)
    ensures IsLost(PutMappings(t.(free := f), puts), s) && !IsLost(t, s)
  {
    hide Words, Disjoint, Spread, Safe, GivenUp, IsFree, PutMappings;
    PutMappingsFrame(t.(free := f), puts);
    GivenUpGone(t, f, taken, puts, s);
    if s in Overwritten(puts) {
      var p := OverwrittenWasMapped(t, taken, puts, s);
      FreeNotInUse(t, p, s);
    }
  }

  lemma FreeNotInUse(t: Tables, p: nat, s: nat)
    requires Safe(t) && Mapped(t, p, s)
    ensures !IsFree(t, s)
  {
    hide Words;
  }

  lemma PublishLosesNoOther(t: Tables, f: FreeList, taken: set<nat>, puts: Puts, s: nat)
    requires Safe(t) && Took(t.free, taken, f) && PutsFit(t, taken, puts)
    requires IsLost(PutMappings(t.(free := f), puts), s)
    ensures IsLost(t, s) || GivenUp(taken, puts, s)
  {
    hide Words, Disjoint, Spread, Safe, PutsFit, PutMappings;
    var u := PutMappings(t.(free := f), puts);
    PutMappingsFrame(t.(free := f), puts);
    SmallSlot(t, s);
    if p :| Mapped(t, p, s) {
      MappedStays(t, f, taken, puts, p, s);
    } else if x :| (x == s || x == s + TAG) && x in taken {
      if p :| p in puts && puts[p].0 == x {
        PutsMapped(t, f, puts, p, s);
      }
    }
  }

  lemma MappedStays(t: Tables, f: FreeList, taken: set<nat>, puts: Puts, p: nat, s: nat)
    requires Safe(t) && PutsFit(t, taken, puts) && Mapped(t, p, s)
    ensures var u := PutMappings(t.(free := f), puts);
      InCurrent(u, s) || s in u.gc
  {
    hide Words, Disjoint, Spread, Safe;
    SafeValid(t);
    PutsMapped(t, f, puts, p, s);
    if p in puts {
      assert puts[p].1 == s;
      assert s in Overwritten(puts);
    } else {
      assert Mapped(PutMappings(t.(free := f), puts), p, s);
    }
  }

  /** How often a page is listed again that needs a new slot. */
  ghost function SharedRepeats(seen: Table, pages: seq<nat>): nat {
    if pages == [] then 0 else
      var n := |pages| - 1;
      SharedRepeats(seen, pages[..n]) + if SharedIn(seen, pages[n]) && pages[n] in pages[..n] then 1 else 0
  }

  lemma PutCount(puts: Puts, page: nat, v: (nat, nat))
    ensures |puts[page := v]| == |puts| + if page in puts then 0 else 1
  {
    var after := puts[page := v];
    if page in puts {
      assert after.Keys == puts.Keys;
    } else {
      assert after.Keys == puts.Keys + {page};
    }
    assert |after| == |after.Keys| && |puts| == |puts.Keys|;
  }

  ghost predicate Counted(seen: Table, words: seq<nat>, pages: seq<nat>, w: Writing) {
    && (forall p :: p in w.puts <==> p in pages && SharedIn(seen, p))
    && |words| - |w.pool| == |w.puts| + SharedRepeats(seen, pages)
  }

  /** Each repetition takes a word beyond those that get published. */
  lemma {:induction false} RepeatsCounted(seen: Table, mem: Memory, words: seq<nat>, file: FileMap, pages: seq<nat>)
    requires |pages| <= |words| && forall p :: p in pages ==> p in mem
    ensures Counted(seen, words, pages, WritePages(seen, mem, Writing(words, file, map[]), pages))
  {
    if pages != [] {
      hide Counted, WritePage, SharedRepeats;
      var n := |pages| - 1;
      RepeatsCounted(seen, mem, words, file, pages[..n]);
      CountedStep(seen, mem, words, pages, WritePages(seen, mem, Writing(words, file, map[]), pages[..n]));
    }
  }

  lemma CountedStep(seen: Table, mem: Memory, words: seq<nat>, pages: seq<nat>, w: Writing)
    requires pages != [] && pages[|pages| - 1] in mem && w.pool != [] && Counted(seen, words, pages[..|pages| - 1], w)
    ensures Counted(seen, words, pages, WritePage(seen, mem, w, pages[|pages| - 1]))
  {
    hide TableInfo;
    var n := |pages| - 1;
    var page := pages[n];
    assert pages == pages[..n] + [page];
    if SharedIn(seen, page) {
      PutCount(w.puts, page, (w.pool[0], TableInfo(seen, page).1));
    }
  }

  /** The commit lists a page twice that needs a new slot. */
  ghost predicate SharedTwice(seen: Table, pages: seq<nat>) {
    exists i, j :: 0 <= i < j < |pages| && pages[i] == pages[j] && SharedIn(seen, pages[i])
  }

  lemma {:induction false} RepeatsZero(seen: Table, pages: seq<nat>)
    ensures SharedRepeats(seen, pages) == 0 <==> !SharedTwice(seen, pages)
  {
    if pages != [] {
      RepeatsZero(seen, pages[..|pages| - 1]);
      TwiceStep(seen, pages);
    }
  }

  lemma TwiceStep(seen: Table, pages: seq<nat>)
    requires pages != []
    ensures var n := |pages| - 1;
      SharedTwice(seen, pages) <==>
      SharedTwice(seen, pages[..n]) || (pages[n] in pages[..n] && SharedIn(seen, pages[n]))
  {
    var n := |pages| - 1;
    var init := pages[..n];
    if SharedTwice(seen, init) {
      var i, j :| 0 <= i < j < |init| && init[i] == init[j] && SharedIn(seen, init[i]);
      assert pages[i] == pages[j];
    }
    if pages[n] in init && SharedIn(seen, pages[n]) {
      var i :| 0 <= i < n && init[i] == pages[n];
      assert pages[i] == pages[n];
    }
    if SharedTwice(seen, pages) {
      var i, j :| 0 <= i < j < |pages| && pages[i] == pages[j] && SharedIn(seen, pages[i]);
      assert j < n ==> init[i] == init[j];
      assert init[i] == pages[i] && pages[i] in init;
    }
  }

  ghost function GivenUpSlots(taken: set<nat>, puts: Puts): (up: set<nat>)
    ensures forall s :: s in up <==> GivenUp(taken, puts, s)
  {
    set x | x in taken && Unmapped(puts, x) :: SlotOf(x)
  }

  lemma PublishedWords(taken: set<nat>, puts: Puts)
    requires PutsNew(taken, puts)
    ensures var m := Outcomes(map p | p in puts :: puts[p].0);
      && |m| == |puts| && m <= taken && forall x :: x in taken ==> (x in m <==> !Unmapped(puts, x))
  {
    var f: map<nat, nat> := map p | p in puts :: puts[p].0;
    assert f.Keys == puts.Keys;
    OutcomesExactly(f);
    forall x | x in taken ensures x in Outcomes(f) <==> !Unmapped(puts, x) {
      if !Unmapped(puts, x) {
        var p :| p in puts && puts[p].0 == x;
        assert p in f && f[p] == x;
      }
    }
  }

  lemma GivenUpCount(t: Tables, taken: set<nat>, puts: Puts)
    requires Safe(t) && taken <= Words(t.free) && PutsFit(t, taken, puts)
    ensures |GivenUpSlots(taken, puts)| == |taken| - |puts|
  {
    hide Words, Safe, PutsNew, Unmapped;
    PublishedWords(taken, puts);
    var m := Outcomes(map p | p in puts :: puts[p].0);
    var up := taken - m;
    DisjointCount(m, up, taken);
    hide Outcomes;
    FreeSlotsOf(t, up);
    GivenUpIs(taken, puts, up);
  }

  lemma GivenUpIs(taken: set<nat>, puts: Puts, up: set<nat>)
    requires forall x :: x in up <==> x in taken && Unmapped(puts, x)
    ensures GivenUpSlots(taken, puts) == (set x | x in up :: SlotOf(x))
  {
    hide Unmapped, SlotOf;
  }

  /** Free words name distinct slots. */
  lemma FreeSlotsOf(t: Tables, words: set<nat>)
    requires Safe(t) && words <= Words(t.free)
    ensures |set x | x in words :: SlotOf(x)| == |words|
  {
    hide Words, Safe, SlotOf;
    var f: map<nat, nat> := map x | x in words :: SlotOf(x);
    assert f.Keys == words;
    forall x, y | x in f && y in f && f[x] == f[y] ensures x == y {
      TakenDistinct(t, x, y);
    }
    OutcomesExactly(f);
    assert Outcomes(f) == (set x | x in words :: SlotOf(x));
  }

  /** A commit loses exactly one slot for each repetition. */
  lemma CommitLoses(s: Store, e: Step)
    requires Safe(s.tables) && GcPending(s.tables) && e.Commit? && Possible(s, e)
    ensures LostSlots(s.tables) <= LostSlots(Apply(s, e).tables)
    ensures |LostSlots(Apply(s, e).tables)| == |LostSlots(s.tables)| + SharedRepeats(s.tables.current, e.pages)
  {
    hide Safe, GcPending, SoftCommit, PutsFit, PutsWell, PutMappings, PutBack;
    hide IsLost, GivenUp, Disjoint, Spread, Words, Elems, Used;
    var words, left, w := CommitParts(s, e.mem, e.pages);
    var taken, f := Elems(Used(words, w.pool)), PutBack(left, Elems(w.pool));
    var t, u := s.tables, Apply(s, e).tables;
    CommitTakes(s, e, words, left, w);
    GivenUpCount(t, taken, w.puts);
    forall x | IsLost(t, x) ensures IsLost(u, x) { PublishKeepsLost(t, f, taken, w.puts, x); }
    forall x | GivenUp(taken, w.puts, x) ensures IsLost(u, x) && !IsLost(t, x) {
      PublishGivesUp(t, f, taken, w.puts, x);
    }
    forall x | IsLost(u, x) ensures IsLost(t, x) || GivenUp(taken, w.puts, x) {
      PublishLosesNoOther(t, f, taken, w.puts, x);
    }
    DisjointCount(LostSlots(t), GivenUpSlots(taken, w.puts), LostSlots(u));
  }

  /** A commit that lists no shared page twice loses none and gets none back, stale entries or not. */
  lemma DistinctLosesNothing(s: Store, e: Step)
    requires Safe(s.tables) && e.Commit? && Possible(s, e) && !SharedTwice(s.tables.current, e.pages)
    ensures LostSlots(Apply(s, e).tables) == LostSlots(s.tables)
  {
    hide Safe, SoftCommit, PutsFit, PutsWell, PutMappings, PutBack, SharedTwice;
    hide IsLost, GivenUp, Disjoint, Spread, Words, Elems, Used;
    var words, left, w := CommitParts(s, e.mem, e.pages);
    var taken, f := Elems(Used(words, w.pool)), PutBack(left, Elems(w.pool));
    var t, u := s.tables, Apply(s, e).tables;
    CommitTakes(s, e, words, left, w);
    GivenUpCount(t, taken, w.puts);
    RepeatsZero(t.current, e.pages);
    assert GivenUpSlots(taken, w.puts) == {};
    forall x | IsLost(t, x) ensures IsLost(u, x) { PublishKeepsLost(t, f, taken, w.puts, x); }
    forall x | IsLost(u, x) ensures IsLost(t, x) { PublishLosesNoOther(t, f, taken, w.puts, x); }
  }

  lemma CommitTakes(s: Store, e: Step, words: seq<nat>, left: FreeList, w: Writing)
    requires Safe(s.tables) && e.Commit? && AtPoint(s, e.mem, e.pages, |e.pages|, words, left, w) && |w.pool| <= |words|
    ensures |Elems(Used(words, w.pool))| == |words| - |w.pool|
    ensures |words| - |w.pool| == |w.puts| + SharedRepeats(s.tables.current, e.pages)
  {
    hide Words, Safe, Apart, PutsWell, FilesWell, WritePages, Alloc;
    PointFacts(s, e.mem, e.pages, |e.pages|, words, left, w);
    assert e.pages[..|e.pages|] == e.pages;
    RepeatsCounted(s.tables.current, e.mem, words, s.file, e.pages);
    AscendingCount(Used(words, w.pool));
  }

  /** A commit conserves slots exactly when it lists no page twice that needs a new slot. */
  lemma CommitConservesExactly(s: Store, e: Step)
    requires Safe(s.tables) && GcPending(s.tables) && Conserved(s.tables) && e.Commit? && Possible(s, e)
    ensures Conserved(Apply(s, e).tables) <==> !SharedTwice(s.tables.current, e.pages)
  {
    hide Safe, GcPending, IsLost, Possible, Apply, SharedTwice;
    CommitLoses(s, e);
    RepeatsZero(s.tables.current, e.pages);
    assert LostSlots(s.tables) == {};
    assert Conserved(Apply(s, e).tables) <==> LostSlots(Apply(s, e).tables) == {};
  }

  // ----- what dropping the current state loses -----

  ghost function SharedPages(t: Tables): set<nat> {
    set p | p in t.current && IsShared(t.current[p])
  }

  /** A slot is lost by a clear exactly when a shared mapping to it is dropped. */
  lemma ClearLost(t: Tables, s: nat)
    requires Safe(t) && (InCurrent(t, s) ==> s !in t.gc)
    ensures IsLost(ClearCurrent(t), s) <==> IsLost(t, s) || exists p :: Mapped(t, p, s) && p in SharedPages(t)
  {
    hide Words, Disjoint, Spread, PrivateWords;
    var u := ClearCurrent(t);
    ClearFreeList(t);
    if p :| Mapped(t, p, s) {
      PrivateWordOf(t, p, s);
      assert IsShared(t.current[p]) ==> p in SharedPages(t);
      if q :| Mapped(t, q, s) && q in SharedPages(t) {
        assert q == p;
      }
    } else if s < t.nrSlots {
      NoPrivateWord(t, s);
    }
  }

  /** The words of a mapped slot, as a clear puts them on the free list. */
  lemma PrivateWordOf(t: Tables, p: nat, s: nat)
    requires Safe(t) && Mapped(t, p, s)
    ensures s !in PrivateWords(t.current)
    ensures s + TAG in PrivateWords(t.current) <==> !IsShared(t.current[p])
  {
    hide Words, Disjoint, Spread;
    if s in PrivateWords(t.current) { PrivateWord(t, s); }
    if s + TAG in PrivateWords(t.current) {
      PrivateWord(t, s + TAG);
      var q :| Mapped(t, q, s) && !IsShared(t.current[q]);
      assert q == p;
    }
  }

  lemma NoPrivateWord(t: Tables, s: nat)
    requires Safe(t) && s < t.nrSlots && forall p :: !Mapped(t, p, s)
    ensures s !in PrivateWords(t.current) && s + TAG !in PrivateWords(t.current)
  {
    hide Words, Disjoint, Spread;
    if s in PrivateWords(t.current) { PrivateWord(t, s); }
    if s + TAG in PrivateWords(t.current) { PrivateWord(t, s + TAG); }
  }

  /** A clear loses exactly one slot for each shared mapping. */
  lemma ClearLoses(t: Tables)
    requires Safe(t) && GcPending(t)
    ensures LostSlots(t) <= LostSlots(ClearCurrent(t))
    ensures |LostSlots(ClearCurrent(t))| == |LostSlots(t)| + |SharedPages(t)|
  {
    hide ClearCurrent, Safe, GcPending, IsLost, Outcomes, OneToOne;
    var f: map<nat, nat> := map p | p in SharedPages(t) :: SlotOf(t.current[p]);
    assert f.Keys == SharedPages(t);
    SharedSlots(t, f);
    OutcomesExactly(f);
    ClearLostSlots(t, f);
  }

  lemma ClearLostSlots(t: Tables, f: map<nat, nat>)
    requires Safe(t) && GcPending(t) && f == map p | p in SharedPages(t) :: SlotOf(t.current[p])
    ensures LostSlots(ClearCurrent(t)) == LostSlots(t) + Outcomes(f)
    ensures |LostSlots(ClearCurrent(t))| == |LostSlots(t)| + |Outcomes(f)|
  {
    hide ClearCurrent, Safe, IsLost, Outcomes, OneToOne, SharedPages, Mapped, GcPending;
    SharedSlots(t, f);
    forall s: nat ensures IsLost(ClearCurrent(t), s) <==> IsLost(t, s) || s in Outcomes(f) {
      assert InCurrent(t, s) ==> s !in t.gc by { InUseOnce(t); }
      ClearLost(t, s);
    }
    DisjointCount(LostSlots(t), Outcomes(f), LostSlots(ClearCurrent(t)));
  }

  lemma SharedSlots(t: Tables, f: map<nat, nat>)
    requires Safe(t) && f == map p | p in SharedPages(t) :: SlotOf(t.current[p])
    ensures OneToOne(f)
    ensures forall s: nat :: s in Outcomes(f) <==> exists p :: Mapped(t, p, s) && p in SharedPages(t)
    ensures LostSlots(t) !! Outcomes(f)
  {
    hide Words, Disjoint, Spread;
    forall x, y | x in f && y in f && f[x] == f[y] ensures x == y {
      assert Mapped(t, x, f[x]) && Mapped(t, y, f[x]);
    }
    forall s: nat ensures s in Outcomes(f) <==> exists p :: Mapped(t, p, s) && p in SharedPages(t) {
      if p :| Mapped(t, p, s) && p in SharedPages(t) { assert f[p] == s; }
      if p :| p in f && f[p] == s { assert Mapped(t, p, s); }
    }
  }

  /** Clearing the current table conserves slots exactly when it drops no shared mapping. */
  lemma ClearConservesExactly(t: Tables)
    requires Safe(t) && GcPending(t) && Conserved(t)
    ensures Conserved(ClearCurrent(t)) <==> forall p :: p in t.current ==> !IsShared(t.current[p])
  {
    hide Safe, GcPending, IsLost, ClearCurrent;
    ClearLoses(t);
    assert LostSlots(t) == {};
    assert Conserved(ClearCurrent(t)) <==> LostSlots(ClearCurrent(t)) == {};
    if p :| p in t.current && IsShared(t.current[p]) {
      assert p in SharedPages(t);
    } else {
      assert SharedPages(t) == {};
    }
  }

  // ----- a lost slot stays lost -----

  lemma RoundKeepsLost(t: Tables, u: Tables)
    requires Safe(t)
    requires u.current == t.current || u.current == Freeze(t.current)
    requires u.free == t.free && u.gc == t.gc && u.nrSlots == t.nrSlots
    ensures forall s: nat :: IsLost(u, s) <==> IsLost(t, s)
  {
    hide Words, Disjoint, Spread, Safe, Freeze, InCurrent;
    SafeValid(t);
    SameCurrent(t, u);
  }

  lemma RemoveKeepsLost(t: Tables, bound: nat)
    requires Safe(t)
    ensures forall s: nat :: IsLost(PurgeBelow(t, bound), s) <==> IsLost(t, s)
    ensures forall s: nat :: IsLost(RemoveBelow(t, bound), s) <==> IsLost(t, s)
  {
    hide Words, Disjoint, Spread, PutBack, InCurrent;
    RemoveFreeList(t, bound);
    SameCurrent(t, PurgeBelow(t, bound));
    SameCurrent(t, RemoveBelow(t, bound));
  }

  lemma LostStays(s: Store, e: Step, x: nat)
    requires Safe(s.tables) && Legal(s, e) && IsLost(s.tables, x)
    ensures IsLost(Apply(s, e).tables, x)
  {
    hide Safe, SoftCommit, IsLost, GcAllows, PutBack, Took, PutsFit, AtPoint, PutsWell;
    match e
    case Commit(pages, mem) =>
      var words, left, w := CommitParts(s, mem, pages);
      PublishKeepsLost(s.tables, PutBack(left, Elems(w.pool)), Elems(Used(words, w.pool)), w.puts, x);
    case Snapshot(round) => RoundKeepsLost(s.tables, EndRound(s.tables, round));
    case Remove(bound) => RemoveKeepsLost(s.tables, bound);
    case Purge(bound) => RemoveKeepsLost(s.tables, bound);
    case Clear =>
      assert InCurrent(s.tables, x) ==> x !in s.tables.gc by { LostNotMapped(s.tables, x); }
      ClearLost(s.tables, x);
    case Checkpointed => RoundKeepsLost(s.tables, Checkpoint(s.tables));
    case Reopened => RoundKeepsLost(s.tables, Reopen(s.tables));
    case Attached =>
  }

  lemma LostNotMapped(t: Tables, x: nat)
    requires IsLost(t, x)
    ensures !InCurrent(t, x)
  {
  }

  /** No run, with removal as written or as documented, ever gets a lost slot back. */
  lemma {:induction false} LostForever(s: Store, es: seq<Step>, x: nat)
    requires Safe(s.tables) && LegalRun(s, es) && IsLost(s.tables, x)
    ensures IsLost(Run(s, es).tables, x)
    decreases |es|
  {
    hide Safe, Possible, InOrder, GcAllows, Apply, IsLost, Abs;
    if es != [] {
      StepExact(s, es[0]);
      LostStays(s, es[0], x);
      LostForever(Apply(s, es[0]), es[1..], x);
    }
  }

  /** In particular, a shared slot that a clear drops is never collected, whatever rounds are removed
      later. */
  lemma DroppedForever(s: Store, p: nat, es: seq<Step>)
    requires Safe(s.tables) && Legal(s, Clear) && LegalRun(Apply(s, Clear), es)
    requires p in s.tables.current && IsShared(s.tables.current[p]) && SlotOf(s.tables.current[p]) !in s.tables.gc
    ensures IsLost(Run(Apply(s, Clear), es).tables, SlotOf(s.tables.current[p]))
  {
    hide Safe, LegalRun, IsLost, GcAllows;
    var x := SlotOf(s.tables.current[p]);
    assert Mapped(s.tables, p, x) && p in SharedPages(s.tables);
    ClearLost(s.tables, x);
    StepExact(s, Clear);
    LostForever(Apply(s, Clear), es, x);
  }

  // ----- runs -----

  /** How many slots a step loses. */
  ghost function Leak(s: Store, e: Step): nat {
    match e
    case Commit(pages, _) => SharedRepeats(s.tables.current, pages)
    case Clear => |SharedPages(s.tables)|
    case _ => 0
  }

  /** Lost slots grow by exactly what the step loses. */
  lemma StepLeaks(s: Store, e: Step)
    requires Safe(s.tables) && GcPending(s.tables) && Documented(s, e)
    ensures LostSlots(s.tables) <= LostSlots(Apply(s, e).tables)
    ensures |LostSlots(Apply(s, e).tables)| == |LostSlots(s.tables)| + Leak(s, e)
  {
    hide Safe, GcPending, IsLost, SoftCommit, PurgeBelow, ClearCurrent, Freeze;
    match e
    case Commit(_, _) => CommitLoses(s, e);
    case Snapshot(round) => RoundKeepsLost(s.tables, EndRound(s.tables, round)); SameLost(s, e);
    case Purge(bound) => RemoveKeepsLost(s.tables, bound); SameLost(s, e);
    case Clear => ClearLoses(s.tables);
    case Checkpointed => RoundKeepsLost(s.tables, Checkpoint(s.tables)); SameLost(s, e);
    case Reopened => RoundKeepsLost(s.tables, Reopen(s.tables)); SameLost(s, e);
    case Attached =>
    case Remove(_) =>
  }

  lemma SameLost(s: Store, e: Step)
    requires Possible(s, e) && forall x: nat :: IsLost(Apply(s, e).tables, x) <==> IsLost(s.tables, x)
    ensures LostSlots(s.tables) == LostSlots(Apply(s, e).tables)
  {
    hide IsLost, Apply, Possible;
  }

  ghost function Leaks(s: Store, es: seq<Step>): nat
    requires DocumentedRun(s, es)
    decreases |es|
  {
    if es == [] then 0 else Leak(s, es[0]) + Leaks(Apply(s, es[0]), es[1..])
  }

  /** Over every run in the callers' order, with removal as documented, slots are lost exactly as its
      steps lose them, and none comes back. */
  lemma {:induction false} RunLeaks(s: Store, es: seq<Step>)
    requires Safe(s.tables) && GcPending(s.tables) && DocumentedRun(s, es)
    ensures LegalRun(s, es)
    ensures var t := Run(s, es).tables;
      && Safe(t) && GcPending(t)
      && LostSlots(s.tables) <= LostSlots(t)
      && |LostSlots(t)| == |LostSlots(s.tables)| + Leaks(s, es)
    decreases |es|
  {
    hide Safe, GcPending, IsLost, Possible, InOrder, GcAllows, Abs, NaiveStep, Apply, Leak;
    if es != [] {
      PendingStep(s, es[0]);
      StepExact(s, es[0]);
      StepLeaks(s, es[0]);
      RunLeaks(Apply(s, es[0]), es[1..]);
    }
  }

  // ----- the accounts -----

  /** The free slots, without tags. */
  ghost function FreeSlots(t: Tables): set<nat> {
    set w | w in Words(t.free) :: SlotOf(w)
  }

  lemma FreeSlotsCount(t: Tables)
    requires Safe(t)
    ensures |FreeSlots(t)| == |Words(t.free)|
    ensures forall s: nat :: s in FreeSlots(t) <==> IsFree(t, s) && s < t.nrSlots
  {
    hide Words, Disjoint, Spread, Safe;
    FreeSlotsOf(t, Words(t.free));
    forall s: nat ensures s in FreeSlots(t) <==> IsFree(t, s) && s < t.nrSlots {
      if IsFree(t, s) && s < t.nrSlots {
        SmallSlot(t, s);
        assert s == SlotOf(s) && s == SlotOf(s + TAG);
      }
      if w :| w in Words(t.free) && SlotOf(w) == s {
        TakenUnused(t, w);
      }
    }
  }

  ghost function MappedSlots(t: Tables): set<nat> {
    set p | p in t.current :: SlotOf(t.current[p])
  }

  lemma MappedSlotsCount(t: Tables)
    requires Safe(t)
    ensures |MappedSlots(t)| == |t.current|
    ensures forall s: nat :: s in MappedSlots(t) <==> InCurrent(t, s)
  {
    hide Words, Disjoint, Spread;
    var f: map<nat, nat> := map p | p in t.current :: SlotOf(t.current[p]);
    assert f.Keys == t.current.Keys;
    forall x, y | x in f && y in f && f[x] == f[y] ensures x == y {
      assert Mapped(t, x, f[x]) && Mapped(t, y, f[x]);
    }
    assert MappedSlots(t) == Outcomes(f);
    OutcomesExactly(f);
    forall s: nat ensures s in MappedSlots(t) <==> InCurrent(t, s) {
      if p :| Mapped(t, p, s) { assert f[p] == s; }
      if p :| p in t.current && SlotOf(t.current[p]) == s { assert Mapped(t, p, s); }
    }
  }

  /** Every slot is counted once: free, mapped, waiting to be collected, or lost. */
  lemma SlotsAccounted(t: Tables)
    requires Safe(t) && GcPending(t)
    ensures t.nrSlots == |Words(t.free)| + |t.current| + |t.gc| + |LostSlots(t)|
  {
    hide Words, IsFree, InCurrent, FreeSlots, MappedSlots, Safe, GcPending, IsLost;
    FreeSlotsCount(t);
    MappedSlotsCount(t);
    var a, b, c, d := FreeSlots(t), MappedSlots(t), t.gc.Keys, LostSlots(t);
    forall s: nat ensures Fourfold(a, b, c, d, Below(t.nrSlots), s) {
      OneOfFour(t, s);
    }
    FourCount(a, b, c, d, Below(t.nrSlots));
  }

  lemma OneOfFour(t: Tables, s: nat)
    requires Safe(t) && GcPending(t)
    ensures (IsFree(t, s) && s < t.nrSlots) || InCurrent(t, s) || s in t.gc || IsLost(t, s) <==> s < t.nrSlots
    ensures InCurrent(t, s) ==> !IsFree(t, s) && s !in t.gc
    ensures s in t.gc ==> !IsFree(t, s)
    ensures IsLost(t, s) ==> !IsFree(t, s) && !InCurrent(t, s) && s !in t.gc
  {
    hide Safe, GcPending, InCurrent, IsFree;
    InUseOnce(t);
  }

  /** An element of the whole is in exactly one of its parts. */
  ghost predicate Fourfold(a: set<nat>, b: set<nat>, c: set<nat>, d: set<nat>, all: set<nat>, s: nat) {
    && (s in all <==> s in a || s in b || s in c || s in d)
    && !(s in a && s in b) && !(s in a && s in c) && !(s in b && s in c)
    && (s in d ==> s !in a && s !in b && s !in c)
  }

  lemma FourCount(a: set<nat>, b: set<nat>, c: set<nat>, d: set<nat>, all: set<nat>)
    requires forall s: nat :: Fourfold(a, b, c, d, all, s)
    ensures |all| == |a| + |b| + |c| + |d|
  {
    forall s: nat
      ensures (s in all <==> s in a || s in b || s in c || s in d)
      ensures !(s in a && s in b) && !(s in a && s in c) && !(s in b && s in c)
      ensures s in d ==> s !in a && s !in b && s !in c
    {
      assert Fourfold(a, b, c, d, all, s);
    }
    DisjointCount(a, b, a + b);
    DisjointCount(a + b, c, a + b + c);
    DisjointCount(a + b + c, d, all);
  }

  lemma InUseOnce(t: Tables)
    requires Safe(t) && GcPending(t)
    ensures forall s: nat :: InCurrent(t, s) ==> s < t.nrSlots && !IsFree(t, s) && s !in t.gc
    ensures forall s :: s in t.gc ==> s < t.nrSlots && !IsFree(t, s)
  {
    hide Words, Disjoint, Spread;
    forall s: nat | InCurrent(t, s) ensures s < t.nrSlots && !IsFree(t, s) && s !in t.gc {
      var p :| Mapped(t, p, s);
    }
  }

  /** The step gives up no slot. */
  ghost predicate Conserving(s: Store, e: Step) {
    match e
    case Commit(pages, _) => !SharedTwice(s.tables.current, pages)
    case Clear => forall p :: p in s.tables.current ==> !IsShared(s.tables.current[p])
    case _ => true
  }

  lemma ConservingExactly(s: Store, e: Step)
    ensures Conserving(s, e) <==> Leak(s, e) == 0
  {
    match e
    case Commit(pages, _) => RepeatsZero(s.tables.current, pages);
    case Clear =>
      if p :| p in s.tables.current && IsShared(s.tables.current[p]) {
        assert p in SharedPages(s.tables);
      } else {
        assert SharedPages(s.tables) == {};
      }
    case _ =>
  }

  /** Which steps conserve slots, exactly. */
  lemma StepConservesExactly(s: Store, e: Step)
    requires Safe(s.tables) && GcPending(s.tables) && Conserved(s.tables) && Documented(s, e)
    ensures Conserved(Apply(s, e).tables) <==> Conserving(s, e)
  {
    hide Safe, GcPending, IsLost, Apply, Conserving, Leak, Possible, InOrder;
    StepLeaks(s, e);
    ConservingExactly(s, e);
    assert LostSlots(s.tables) == {};
    assert Conserved(Apply(s, e).tables) <==> LostSlots(Apply(s, e).tables) == {};
  }

  ghost predicate ConservingRun(s: Store, es: seq<Step>)
    decreases |es|
  {
    es == [] || (Documented(s, es[0]) && Conserving(s, es[0]) && ConservingRun(Apply(s, es[0]), es[1..]))
  }

  /** Over every such run, free slots, mapped slots and slots waiting to be collected partition the
      slots. */
  lemma {:induction false} RunConserves(s: Store, es: seq<Step>)
    requires Safe(s.tables) && GcPending(s.tables) && Conserved(s.tables) && ConservingRun(s, es)
    ensures LegalRun(s, es)
    ensures var t := Run(s, es).tables;
      && Conserved(t)
      && (forall q :: q in t.gc ==> !InCurrent(t, q) && !IsFree(t, q))
      && (forall q :: InCurrent(t, q) ==> !IsFree(t, q))
    decreases |es|
  {
    hide Possible, InOrder, GcAllows, Conserving, Conserved, Apply, Words, Disjoint, Spread;
    if es != [] {
      PendingStep(s, es[0]);
      StepExact(s, es[0]);
      StepConservesExactly(s, es[0]);
      RunConserves(Apply(s, es[0]), es[1..]);
    }
  }

  lemma FreshConserved(nrSlots: nat)
    requires 0 < nrSlots <= SLOT_BOUND
    ensures Safe(Fresh(nrSlots)) && GcPending(Fresh(nrSlots)) && Conserved(Fresh(nrSlots))
  {
    hide Words, Disjoint, Spread;
    FreshSafe(nrSlots);
  }
}

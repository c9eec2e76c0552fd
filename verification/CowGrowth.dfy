/** The state file grows ahead of the slots that are written to. */
module CowGrowth {
  import opened SlotWords
  import opened SortedTables
  import opened Counting
  import opened FreeLists
  import opened RangeMaps
  import opened SlotTables
  import opened CowStore
  import opened StatePages
  import opened CowRuns
  import opened CowConservation
  import opened CowCapacity

  /** The page stored at a slot lies wholly inside the file; the metadata page comes first. */
  predicate InFile(s: Store, slot: nat) {
    (slot + META_LEN + 1) * PAGE_SIZE <= s.fileLen
  }

  /** So far n words were taken off the free list, so that no slot past the first n was ever used; the
      count of bytes written misses d of them, which were published before it last started again or
      never; and the file is at least as long as that count. */
  ghost predicate Headroom(s: Store, n: nat, d: nat) {
    && s.written + d * PAGE_SIZE == INITIAL_WRITTEN_SIZE + n * PAGE_SIZE
    && s.written <= s.fileLen
    && INITIAL_WRITTEN_SIZE <= s.fileLen
    && (forall x: nat :: n <= x < s.tables.nrSlots ==> x in Words(s.tables.free))
  }

  /** The words missed take no more room than the count was ahead by at the start. */
  predicate Absorbed(d: nat) {
    (d + 1) * PAGE_SIZE <= INITIAL_WRITTEN_SIZE
  }

  /** The j-th word handed out is at most j past the first slot that was never used. */
  lemma {:induction false} AllocStaysLow(before: set<nat>, words: seq<nat>, after: set<nat>, n: nat, limit: nat, j: nat)
    requires TakesSmallest(before, words, after) && j < |words|
    requires forall x: nat :: n <= x < limit ==> x in before
    requires n + j < limit
    ensures words[j] <= n + j
  {
    if words[j] > n + j {
      var x := n + j;
      assert x in before;
      assert words[j] in words && x !in after;
      assert x in Elems(words);
      var i :| 0 <= i < |words| && words[i] == x;
      assert i < j;
      AllocStaysLow(before, words, after, n, limit, i);
    }
  }

  lemma UsedSlotsLow(s: Store, n: nat, d: nat, words: seq<nat>, left: FreeList, j: nat)
    requires Safe(s.tables) && Headroom(s, n, d)
    requires TakesSmallest(Words(s.tables.free), words, Words(left)) && j < |words|
    ensures SlotOf(words[j]) <= n + j
  {
    hide Words, Safe;
    assert words[j] in Elems(words);
    TakenUnused(s.tables, words[j]);
    if n + j < s.tables.nrSlots {
      AllocStaysLow(Words(s.tables.free), words, Words(left), n, s.tables.nrSlots, j);
    }
  }

  /** A slot some page or round uses is one of the first n. */
  lemma MappedLow(s: Store, n: nat, d: nat, x: nat)
    requires Safe(s.tables) && Headroom(s, n, d) && Absorbed(d) && x < s.tables.nrSlots && !IsFree(s.tables, x)
    ensures x < n && InFile(s, x)
  {
    hide Words, Safe;
  }

  lemma GrowEnough(s: Store, k: nat)
    requires s.written <= s.fileLen && k * PAGE_SIZE <= GROW_SIZE
    ensures s.written + k * PAGE_SIZE <= GrowFile(s, k).fileLen
    ensures s.fileLen <= GrowFile(s, k).fileLen
  {
  }

  /** Every slot the commit writes to, in place or new, lies inside the file as the commit grew it. */
  lemma CommitInFile(
      s: Store, n: nat, d: nat, mem: Memory, pages: seq<nat>, words: seq<nat>, left: FreeList, w: Writing)
    requires Safe(s.tables) && Headroom(s, n, d) && Absorbed(d) && AtPoint(s, mem, pages, |pages|, words, left, w)
    requires |pages| * PAGE_SIZE <= GROW_SIZE
    ensures forall j :: 0 <= j < |words| ==> InFile(GrowFile(s, |pages|), SlotOf(words[j]))
    ensures forall p :: p in s.tables.current ==> InFile(GrowFile(s, |pages|), SlotOf(s.tables.current[p]))
  {
    hide Words, Safe, WritePages, Alloc, FilesWell, PutsWell, Apart, GrowFile;
    PointFacts(s, mem, pages, |pages|, words, left, w);
    GrowEnough(s, |pages|);
    forall j | 0 <= j < |words| ensures InFile(GrowFile(s, |pages|), SlotOf(words[j])) {
      UsedSlotsLow(s, n, d, words, left, j);
    }
    forall p | p in s.tables.current ensures InFile(GrowFile(s, |pages|), SlotOf(s.tables.current[p])) {
      PageSlot(s.tables, p);
      MappedLow(s, n, d, SlotOf(s.tables.current[p]));
    }
  }

  lemma PageSlot(t: Tables, p: nat)
    requires Safe(t) && p in t.current
    ensures SlotOf(t.current[p]) < t.nrSlots && !IsFree(t, SlotOf(t.current[p]))
  {
    hide Words;
    assert Mapped(t, p, SlotOf(t.current[p]));
  }

  lemma RoundSlot(t: Tables, r: nat, p: nat)
    requires Safe(t) && r in t.rounds && p in t.rounds[r]
    ensures t.rounds[r][p] < t.nrSlots && !IsFree(t, t.rounds[r][p])
    ensures SlotOf(t.rounds[r][p]) == t.rounds[r][p]
  {
    hide Words;
    assert InRound(t, r, p, t.rounds[r][p]);
  }

  // ----- the accounts -----

  /** How many of the listed pages need a new slot, repetitions included. */
  ghost function SharedListed(seen: Table, pages: seq<nat>): nat {
    if pages == [] then 0 else
      var n := |pages| - 1;
      SharedListed(seen, pages[..n]) + if SharedIn(seen, pages[n]) then 1 else 0
  }

  lemma {:induction false} PoolUsed(seen: Table, mem: Memory, words: seq<nat>, file: FileMap, pages: seq<nat>)
    requires |pages| <= |words| && forall p :: p in pages ==> p in mem
    ensures |words| - |WritePages(seen, mem, Writing(words, file, map[]), pages).pool| == SharedListed(seen, pages)
  {
    if pages != [] {
      PoolUsed(seen, mem, words, file, pages[..|pages| - 1]);
    }
  }

  /** Words taken and words missed after a step. */
  ghost function Account(s: Store, e: Step, n: nat, d: nat): (nat, nat) {
    match e
    case Commit(pages, _) =>
      (n + SharedListed(s.tables.current, pages), d + SharedRepeats(s.tables.current, pages))
    case Checkpointed => (n, n)
    case Reopened => (n, n)
    case Attached => (n, n)
    case _ => (n, d)
  }

  lemma CommitHeadroom(s: Store, n: nat, d: nat, e: Step)
    requires Safe(s.tables) && Headroom(s, n, d) && e.Commit? && Possible(s, e)
    requires |e.pages| * PAGE_SIZE <= GROW_SIZE
    ensures var (m, k) := Account(s, e, n, d); Headroom(Apply(s, e), m, k)
  {
    hide Words, Safe, PutsFit, PutsWell, Spread, Disjoint, AtPoint, SoftCommit, PutMappings, PutBack, Elems, GrowFile;
    var words, left, w := CommitParts(s, e.mem, e.pages);
    CommitUses(s, e, words, left, w);
    GrowEnough(s, |e.pages|);
    var (m, k) := Account(s, e, n, d);
    var u := Apply(s, e);
    PutMappingsFrame(s.tables.(free := PutBack(left, Elems(w.pool))), w.puts);
    forall x: nat | m <= x < u.tables.nrSlots ensures x in Words(u.tables.free) {
      NotUsed(s, n, d, e, words, left, w, x);
    }
  }

  lemma CommitUses(s: Store, e: Step, words: seq<nat>, left: FreeList, w: Writing)
    requires Safe(s.tables) && e.Commit? && AtPoint(s, e.mem, e.pages, |e.pages|, words, left, w) && |w.pool| <= |words|
    ensures |words| - |w.pool| == SharedListed(s.tables.current, e.pages)
    ensures SharedListed(s.tables.current, e.pages) == |w.puts| + SharedRepeats(s.tables.current, e.pages)
    ensures |w.puts| <= |e.pages|
  {
    hide Words, Safe, WritePages, Alloc, Elems;
    CommitTakes(s, e, words, left, w);
    assert e.pages[..|e.pages|] == e.pages;
    PoolUsed(s.tables.current, e.mem, words, s.file, e.pages);
    ListedAtMost(s.tables.current, e.pages);
  }

  lemma {:induction false} ListedAtMost(seen: Table, pages: seq<nat>)
    ensures SharedListed(seen, pages) <= |pages|
  {
    if pages != [] { ListedAtMost(seen, pages[..|pages| - 1]); }
  }

  lemma NotUsed(s: Store, n: nat, d: nat, e: Step, words: seq<nat>, left: FreeList, w: Writing, x: nat)
    requires Safe(s.tables) && Headroom(s, n, d) && e.Commit?
    requires AtPoint(s, e.mem, e.pages, |e.pages|, words, left, w) && |w.pool| <= |words|
    requires n + (|words| - |w.pool|) <= x < s.tables.nrSlots
    ensures x !in Elems(Used(words, w.pool))
  {
    hide Words, Safe, WritePages, Alloc, FilesWell, PutsWell, Apart;
    PointFacts(s, e.mem, e.pages, |e.pages|, words, left, w);
    forall j | 0 <= j < |words| - |w.pool| ensures words[j] != x {
      UsedSlotsLow(s, n, d, words, left, j);
      SmallSlot(s.tables, x);
    }
  }

  lemma OtherHeadroom(s: Store, n: nat, d: nat, e: Step)
    requires Safe(s.tables) && Headroom(s, n, d) && !e.Commit?
    ensures var (m, k) := Account(s, e, n, d); Headroom(Apply(s, e), m, k)
  {
    hide Words, Spread, Disjoint, PutBack, Expiring, PrivateWords, FreeUnused, OnePage, PrivateInNoRound, GcHistory;
    match e
    case Remove(bound) => RemoveFreeList(s.tables, bound);
    case Purge(bound) => RemoveFreeList(s.tables, bound);
    case Clear => ClearFreeList(s.tables);
    case _ =>
  }

  ghost function Accounts(s: Store, es: seq<Step>, n: nat, d: nat): (nat, nat)
    requires LegalRun(s, es)
    decreases |es|
  {
    if es == [] then (n, d) else
      var (m, k) := Account(s, es[0], n, d);
      Accounts(Apply(s, es[0]), es[1..], m, k)
  }

  /** Commits that one growth step can hold. */
  predicate Growing(e: Step) {
    e.Commit? ==> |e.pages| * PAGE_SIZE <= GROW_SIZE
  }

  /** Distinct state pages are never more than one growth step can hold. */
  lemma CommitSizeBounded(ps: seq<nat>)
    requires forall p :: p in ps ==> p in StatePageSet()
    requires forall i, j :: 0 <= i < j < |ps| ==> ps[i] != ps[j]
    ensures |ps| * PAGE_SIZE <= GROW_SIZE
  {
    StatePageCount();
    DistinctCount(ps);
    SubsetCount(Elems(ps), StatePageSet());
  }

  lemma {:induction false} RunHeadroom(s: Store, n: nat, d: nat, es: seq<Step>)
    requires Safe(s.tables) && Headroom(s, n, d) && LegalRun(s, es) && forall e :: e in es ==> Growing(e)
    ensures Safe(Run(s, es).tables)
    ensures var (m, k) := Accounts(s, es, n, d); Headroom(Run(s, es), m, k)
    decreases |es|
  {
    hide Words, Safe, Possible, InOrder, GcAllows, Apply, Headroom, Account, Abs, NaiveStep;
    if es != [] {
      StepExact(s, es[0]);
      assert Growing(es[0]);
      if es[0].Commit? {
        CommitHeadroom(s, n, d, es[0]);
      } else {
        OtherHeadroom(s, n, d, es[0]);
      }
      var (m, k) := Account(s, es[0], n, d);
      RunHeadroom(Apply(s, es[0]), m, k, es[1..]);
    }
  }

  /** From a fresh store, as long as the words missed are covered, every page any table maps lies
      inside the file. As long as the count does not start again and without repetition none is missed. */
  lemma RunInFile(s: Store, n: nat, d: nat, es: seq<Step>)
    requires Safe(s.tables) && Headroom(s, n, d) && LegalRun(s, es) && forall e :: e in es ==> Growing(e)
    requires Absorbed(Accounts(s, es, n, d).1)
    ensures var u := Run(s, es);
      && (forall p :: p in u.tables.current ==> InFile(u, SlotOf(u.tables.current[p])))
      && (forall r, p :: r in u.tables.rounds && p in u.tables.rounds[r] ==> InFile(u, u.tables.rounds[r][p]))
  {
    hide Words, Safe, Headroom, InFile, LegalRun, Run, Accounts, Absorbed;
    RunHeadroom(s, n, d, es);
    var u := Run(s, es);
    var (m, k) := Accounts(s, es, n, d);
    forall p | p in u.tables.current ensures InFile(u, SlotOf(u.tables.current[p])) {
      PageSlot(u.tables, p);
      MappedLow(u, m, k, SlotOf(u.tables.current[p]));
    }
    forall r, p | r in u.tables.rounds && p in u.tables.rounds[r] ensures InFile(u, u.tables.rounds[r][p]) {
      RoundSlot(u.tables, r, p);
      MappedLow(u, m, k, u.tables.rounds[r][p]);
    }
  }

  /** What is missed only comes from checkpoints, reopenings, further managers and repetitions. */
  lemma {:induction false} NothingMissed(s: Store, n: nat, d: nat, es: seq<Step>)
    requires LegalRun(s, es) && Unforgetting(s, es)
    ensures Accounts(s, es, n, d).1 == d
    decreases |es|
  {
    hide Possible, InOrder, GcAllows, Apply, SharedTwice;
    if es != [] {
      if es[0].Commit? { RepeatsZero(s.tables.current, es[0].pages); }
      NothingMissed(Apply(s, es[0]), Account(s, es[0], n, d).0, d, es[1..]);
    }
  }

  ghost predicate Unforgetting(s: Store, es: seq<Step>)
    requires LegalRun(s, es)
    decreases |es|
  {
    es == [] ||
    (&& !Resets(es[0])
     && (es[0].Commit? ==> !SharedTwice(s.tables.current, es[0].pages))
     && Unforgetting(Apply(s, es[0]), es[1..]))
  }

  lemma FreshHeadroom(nrSlots: nat)
    requires 0 < nrSlots <= SLOT_BOUND
    ensures Safe(FreshStore(nrSlots).tables) && Headroom(FreshStore(nrSlots), 0, 0) && Absorbed(0)
  {
    hide Words, Spread, Disjoint;
    FreshSafe(nrSlots);
  }

  // ----- starting the count again makes the file fall behind -----

  ghost function HeapPages(): (ps: seq<nat>)
    ensures |ps| == HEAP_LEN
    ensures forall i, j :: 0 <= i < j < |ps| ==> ps[i] != ps[j]
    ensures forall p :: p in ps ==> p in StatePageSet()
  {
    seq(HEAP_LEN, i => i + HEAP_OFFSET)
  }

  /** A commit of pages none of which is private makes all of them private. */
  lemma CommitAll(s: Store, pages: seq<nat>, mem: Memory)
    requires Safe(s.tables) && Possible(s, Commit(pages, mem))
    requires forall p :: p in pages ==> SharedIn(s.tables.current, p)
    ensures var u := Apply(s, Commit(pages, mem));
      && Safe(u.tables)
      && u.tables.rounds == s.tables.rounds
      && u.tables.last == s.tables.last && u.tables.checkpointed == s.tables.checkpointed
      && u.fileLen == GrowFile(s, |pages|).fileLen
      && (forall p :: p in pages ==> p in u.tables.current && !IsShared(u.tables.current[p]))
  {
    hide Safe, SoftCommit, Took, PutsFit, AtPoint, PutBack, GrowFile;
    hide Abs, NaiveStep, Used, Elems, PutsWell, PutMappings, TableInfo;
    StepExact(s, Commit(pages, mem));
    var words, left, w := CommitParts(s, mem, pages);
    var t := s.tables.(free := PutBack(left, Elems(w.pool)));
    PutMappingsRounds(t, w.puts);
    forall p | p in pages ensures p in PutMappings(t, w.puts).current && !IsShared(PutMappings(t, w.puts).current[p]) {
      assert p in w.puts by { PutsAll(s.tables.current, words, pages, w, p); }
      TookPart(s.tables.free, Elems(Used(words, w.pool)), PutBack(left, Elems(w.pool)));
      PublishedPrivate(s.tables, Elems(Used(words, w.pool)), w.puts, p);
      PutMappingsAt(t, w.puts, p);
    }
  }

  lemma PutMappingsRounds(t: Tables, puts: Puts)
    ensures var u := PutMappings(t, puts);
      u.rounds == t.rounds && u.last == t.last && u.checkpointed == t.checkpointed
  {
  }

  lemma PutMappingsAt(t: Tables, puts: Puts, p: nat)
    requires p in puts
    ensures p in Published(puts) && p in PutMappings(t, puts).current
    ensures PutMappings(t, puts).current[p] == Published(puts)[p]
  {
  }

  lemma PutsAll(seen: Table, words: seq<nat>, pages: seq<nat>, w: Writing, p: nat)
    requires PutsWell(seen, words, pages, w) && p in pages && SharedIn(seen, p)
    ensures p in w.puts
  {
  }

  lemma TookPart(before: FreeList, taken: set<nat>, after: FreeList)
    requires Took(before, taken, after)
    ensures taken <= Words(before)
  {
  }

  lemma PublishedPrivate(t: Tables, taken: set<nat>, puts: Puts, p: nat)
    requires Safe(t) && taken <= Words(t.free) && PutsFit(t, taken, puts) && p in puts
    ensures !IsShared(Published(puts)[p])
  {
    hide Words, Safe;
    TakenUnused(t, puts[p].0);
    BoundedSlots(t);
  }

  /** More slots in use than the file holds. */
  lemma Overflow(s: Store, slots: set<nat>)
    requires slots != {} && (|slots| + META_LEN) * PAGE_SIZE > s.fileLen
    ensures exists x :: x in slots && !InFile(s, x)
  {
    if forall x :: x in slots ==> InFile(s, x) {
      assert slots <= Below(|slots| - 1);
      SubsetCount(slots, Below(|slots| - 1));
    }
  }

  lemma SnapshotAll(t: Tables, round: nat, p: nat)
    requires Safe(t) && round !in t.rounds && p in t.current
    ensures var u := EndRound(t, round);
      && SharedIn(u.current, p) && u.rounds.Keys == t.rounds.Keys + {round}
      && p in u.rounds[round] && u.rounds[round][p] == SlotOf(t.current[p])
  {
    hide Words;
    assert Mapped(t, p, SlotOf(t.current[p]));
  }

  /** The slot is used by the current table or by a round. */
  ghost predicate InUseBy(t: Tables, x: nat) {
    InCurrent(t, x) || exists r, p :: InRound(t, r, p, x)
  }

  /** Pages that are private now and were in a round use two slots each. */
  lemma TwoSlotsEach(t: Tables, round: nat, pages: set<nat>) returns (slots: set<nat>)
    requires Safe(t) && round in t.rounds && pages <= t.rounds[round].Keys
    requires forall p :: p in pages ==> p in t.current && !IsShared(t.current[p])
    requires OneToOne(map p | p in pages :: t.rounds[round][p])
    ensures |slots| == 2 * |pages| && forall x :: x in slots ==> InUseBy(t, x)
  {
    hide Words, Disjoint, Spread;
    var a: map<nat, nat> := map p | p in pages :: t.rounds[round][p];
    var b: map<nat, nat> := map p | p in pages :: SlotOf(t.current[p]);
    assert a.Keys == pages && b.Keys == pages;
    forall x, y | x in b && y in b && b[x] == b[y] ensures x == y {
      assert Mapped(t, x, b[x]) && Mapped(t, y, b[x]);
    }
    forall x | x in Outcomes(a) ensures x !in Outcomes(b) && InUseBy(t, x) {
      var p :| p in a && a[p] == x;
      assert InRound(t, round, p, x);
      assert forall q :: q in b ==> Mapped(t, q, b[q]);
    }
    forall x | x in Outcomes(b) ensures InUseBy(t, x) {
      var p :| p in b && b[p] == x;
      assert Mapped(t, p, x);
    }
    OutcomesExactly(a);
    OutcomesExactly(b);
    slots := Outcomes(a) + Outcomes(b);
    DisjointCount(Outcomes(a), Outcomes(b), slots);
  }

  /** The step makes the count of bytes written start again. */
  predicate Resets(e: Step) {
    e.Checkpointed? || e.Reopened? || e.Attached?
  }

  /** All heap pages are committed, the count starts again, and after a snapshot they are committed
      again. */
  ghost function OutgrowSteps(mem: Memory, e: Step): seq<Step> {
    [Commit(HeapPages(), mem), e, Snapshot(1), Commit(HeapPages(), mem)]
  }

  /** Slots of the first commit are distinct, and a snapshot keeps them. */
  lemma SnapshotDistinct(t: Tables, round: nat, pages: set<nat>)
    requires Safe(t) && round !in t.rounds && pages <= t.current.Keys
    ensures var u := EndRound(t, round);
      && round in u.rounds && pages <= u.rounds[round].Keys
      && OneToOne(map p | p in pages :: u.rounds[round][p])
      && forall p :: p in pages ==> SharedIn(u.current, p)
  {
    hide Words, EndRound, SlotOf;
    var u := EndRound(t, round);
    forall p | p in pages ensures
      && SharedIn(u.current, p) && round in u.rounds
      && p in u.rounds[round] && u.rounds[round][p] == SlotOf(t.current[p])
    {
      SnapshotAll(t, round, p);
    }
    assert round in u.rounds by { hide *; EndRoundEnds(t, round); }
    var a: map<nat, nat> := map p | p in pages :: u.rounds[round][p];
    forall x, y | x in a && y in a && a[x] == a[y] ensures x == y {
      assert Mapped(t, x, a[x]) && Mapped(t, y, a[x]);
    }
  }

  lemma EndRoundEnds(t: Tables, round: nat)
    ensures round in EndRound(t, round).rounds
  {
  }

  /** The second commit of the same pages does not fit in a file that does not grow for it. */
  lemma SecondCommit(s: Store, round: nat, pages: seq<nat>, mem: Memory)
    requires Safe(s.tables) && round in s.tables.rounds && pages != []
    requires forall i, j :: 0 <= i < j < |pages| ==> pages[i] != pages[j]
    requires Elems(pages) <= s.tables.rounds[round].Keys
    requires OneToOne(map p | p in Elems(pages) :: s.tables.rounds[round][p])
    requires forall p :: p in pages ==> SharedIn(s.tables.current, p)
    requires Possible(s, Commit(pages, mem))
    requires s.written + |pages| * PAGE_SIZE + GROW_THRESHOLD < s.fileLen < (2 * |pages| + META_LEN) * PAGE_SIZE
    ensures var u := Apply(s, Commit(pages, mem)); exists x :: InUseBy(u.tables, x) && !InFile(u, x)
  {
    hide SoftCommit, Safe, InFile, OneToOne, InUseBy, Possible, SharedIn;
    CommitAll(s, pages, mem);
    DistinctCount(pages);
    var u := Apply(s, Commit(pages, mem));
    assert u.fileLen == s.fileLen;
    hide Apply;
    var slots := TwoSlotsEach(u.tables, round, Elems(pages));
    assert |slots| == 2 * |pages| && slots != {};
    Overflow(u, slots);
  }

  lemma RetainOne(s: Store, e: Step, es: seq<Step>, pages: set<nat>)
    requires Documented(s, e) && Retaining(s, e, pages) && RetainingRun(Apply(s, e), es, pages)
    ensures RetainingRun(s, [e] + es, pages)
  {
    assert ([e] + es)[1..] == es;
  }

  lemma FirstCommit(s: Store, mem: Memory)
    requires s == FreshStore(MAX_ROUNDS * HEAP_LEN) && forall p :: p in HeapPages() ==> p in mem
    ensures Possible(s, Commit(HeapPages(), mem))
  {
    hide Possible, HeapPages;
    NeverExhausted([], mem, HeapPages());
  }

  /** The first commit. */
  lemma AfterFirst(s: Store, mem: Memory)
    requires s == FreshStore(MAX_ROUNDS * HEAP_LEN) && forall p :: p in HeapPages() ==> p in mem
    ensures Possible(s, Commit(HeapPages(), mem))
    ensures var u := Apply(s, Commit(HeapPages(), mem));
      && Safe(u.tables) && u.tables.rounds == map[] && u.tables.last == 0 && u.tables.checkpointed == 0
      && Elems(HeapPages()) <= u.tables.current.Keys
      && u.fileLen == INITIAL_FILE_SIZE + GROW_SIZE
  {
    hide SoftCommit, Safe, HeapPages, SharedIn;
    FirstCommit(s, mem);
    FreshSafe(MAX_ROUNDS * HEAP_LEN);
    AllShared(HeapPages());
    CommitAll(s, HeapPages(), mem);
  }

  /** A reset, with nothing executed yet, and a snapshot. */
  lemma ResetThenSnapshot(s: Store, e: Step)
    requires Safe(s.tables) && Resets(e)
    requires s.tables.rounds == map[] && s.tables.last == 0 && s.tables.checkpointed == 0
    ensures Legal(s, e) && Apply(s, e) == s.(written := INITIAL_WRITTEN_SIZE)
    ensures Legal(Apply(s, e), Snapshot(1)) && Safe(EndRound(s.tables, 1))
  {
    hide Words, Disjoint, Spread;
    assert NoneLater(s.tables, 0) && NoneLater(s.tables, 1);
    EndRoundSafe(s.tables, 1);
  }

  /** The store before the second commit. */
  lemma BeforeSecond(s: Store, mem: Memory, e: Step) returns (u: Store)
    requires s == FreshStore(MAX_ROUNDS * HEAP_LEN) && (forall p :: p in HeapPages() ==> p in mem) && Resets(e)
    ensures var es := OutgrowSteps(mem, e)[..3];
      RetainingRun(s, es, StatePageSet()) && LegalRun(s, es) && u == Run(s, es) && Safe(u.tables)
    ensures u.tables.rounds.Keys == {1} && Elems(HeapPages()) <= u.tables.rounds[1].Keys
    ensures OneToOne(map p | p in Elems(HeapPages()) :: u.tables.rounds[1][p])
    ensures forall p :: p in HeapPages() ==> SharedIn(u.tables.current, p)
    ensures u.written == INITIAL_WRITTEN_SIZE && u.fileLen == INITIAL_FILE_SIZE + GROW_SIZE
  {
    hide SoftCommit, Safe, HeapPages, OneToOne, SharedIn, EndRound, NoneLater;
    var pages := StatePageSet();
    var c, n := Commit(HeapPages(), mem), Snapshot(1);
    AfterFirst(s, mem);
    var s1 := Apply(s, c);
    SnapshotDistinct(s1.tables, 1, Elems(HeapPages()));
    SafeValid(s1.tables);
    EndRoundView(s1.tables, s1.file, 1);
    ResetThenSnapshot(s1, e);
    var s2 := Apply(s1, e);
    u := Apply(s2, n);
    hide Apply;
    RetainOne(s2, n, [], pages);
    RetainOne(s1, e, [n], pages);
    RetainOne(s, c, [e, n], pages);
    OneStep(s2, n, []);
    OneStep(s1, e, [n]);
    OneStep(s, c, [e, n]);
    assert [c] + ([e] + [n]) == OutgrowSteps(mem, e)[..3];
  }

  lemma {:induction false} NoClears(es: seq<Step>)
    requires forall e :: e in es ==> !e.Clear?
    ensures Clears(es) == 0
  {
    if es != [] { NoClears(es[1..]); }
  }

  lemma AllShared(pages: seq<nat>)
    ensures forall p :: p in pages ==> SharedIn(map[], p)
  {
  }

  /** A single checkpoint, reopening or further manager can leave the file behind: this run takes more
      slots than the file then has room for. */
  lemma ResetOutgrows(s: Store, mem: Memory, e: Step)
    requires s == FreshStore(MAX_ROUNDS * HEAP_LEN) && (forall p :: p in HeapPages() ==> p in mem) && Resets(e)
    ensures LegalRun(s, OutgrowSteps(mem, e))
    ensures var u := Run(s, OutgrowSteps(mem, e)); exists x :: InUseBy(u.tables, x) && !InFile(u, x)
  {
    hide SoftCommit, Safe, InFile, HeapPages, Possible, OneToOne, InUseBy, SharedIn, Apply, RetainingRun;
    hide DocumentedRun, LegalRun, Run;
    var es := OutgrowSteps(mem, e);
    var u := BeforeSecond(s, mem, e);
    FreshSound(MAX_ROUNDS * HEAP_LEN, StatePageSet());
    LeaksBounded(s, es[..3], StatePageSet());
    NoClears(es[..3]);
    NeverExhausted(es[..3], mem, HeapPages());
    assert |u.tables.rounds.Keys| == 1;
    SecondCommit(u, 1, HeapPages(), mem);
    assert es[..3] + [es[3]] == es;
    LastStep(s, es[..3], es[3]);
  }
}

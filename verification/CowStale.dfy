/** Commits through a mapping that was not made from the current table: when they do harm, exactly. */
module CowStale {
  import opened Basics
  import opened SlotWords
  import opened SortedTables
  import opened FreeLists
  import opened RangeMaps
  import opened SlotTables
  import opened CowStore
  import opened StatePages
  import opened CowRuns
  import opened CowConservation
  import opened SlotManager

  // ----- a stale mapping -----

  /** The mapping calls a slot private that a completed round uses, and the commit writes to it. */
  ghost predicate Trespass(t: Tables, seen: Table, pages: seq<nat>) {
    exists p, r, q :: p in pages && !SharedIn(seen, p) && InRound(t, r, q, TableInfo(seen, p).1)
  }

  lemma {:induction false} WriteTargets(
      seen: Table, mem: Memory, words: seq<nat>, file: FileMap, pages: seq<nat>, s: nat)
    requires |pages| <= |words| && forall p :: p in pages ==> p in mem
    ensures var w := WritePages(seen, mem, Writing(words, file, map[]), pages);
      && (forall x :: x in w.pool ==> x in words)
      && (ReadSlot(w.file, s) != ReadSlot(file, s) ==> Target(seen, words, pages, s))
  {
    if pages != [] {
      var n := |pages| - 1;
      var init, page := pages[..n], pages[n];
      assert pages == init + [page];
      WriteTargets(seen, mem, words, file, init, s);
      var w := WritePages(seen, mem, Writing(words, file, map[]), init);
      if Target(seen, words, init, s) {
        TargetGrows(seen, words, init, page, s);
      }
      if SharedIn(seen, page) {
        assert w.pool[0] in w.pool;
        var i :| 0 <= i < |words| && words[i] == w.pool[0];
        TargetWord(seen, words, pages, i);
      } else {
        TargetPage(seen, words, pages, page);
      }
    }
  }

  /** If every page has the same contents, a slot written in place ends up with them. */
  lemma {:induction false} WritesStay(
      seen: Table, mem: Memory, words: seq<nat>, file: FileMap, pages: seq<nat>, p: nat, x: Page)
    requires |pages| <= |words| && forall q :: q in pages ==> q in mem && mem[q] == x
    requires p in pages && !SharedIn(seen, p)
    ensures var w := WritePages(seen, mem, Writing(words, file, map[]), pages);
      ReadSlot(w.file, TableInfo(seen, p).1) == x
  {
    var n := |pages| - 1;
    var init, page := pages[..n], pages[n];
    assert pages == init + [page];
    if page != p {
      WritesStay(seen, mem, words, file, init, p, x);
    }
  }

  lemma StaleKeeps(s: Store, seen: Table, mem: Memory, pages: seq<nat>)
    requires Safe(s.tables) && !Trespass(s.tables, seen, pages) && forall p :: p in pages ==> p in mem
    requires SoftCommit(s, seen, mem, pages).Some?
    ensures KeepsRounds(s, SoftCommit(s, seen, mem, pages).value)
  {
    hide Words, Disjoint, Spread, Safe, Target, WritePages, Alloc;
    var u := SoftCommit(s, seen, mem, pages).value;
    var (words, left) := Alloc(s.tables.free, |pages|).value;
    forall r, p | r in s.tables.rounds && p in s.tables.rounds[r]
      ensures ReadSlot(u.file, SlotOf(s.tables.rounds[r][p])) == ReadSlot(s.file, SlotOf(s.tables.rounds[r][p]))
    {
      WriteTargets(seen, mem, words, s.file, pages, SlotOf(s.tables.rounds[r][p]));
      RoundNoTarget(s.tables, seen, words, left, pages, r, p);
    }
  }

  lemma RoundNoTarget(t: Tables, seen: Table, words: seq<nat>, left: FreeList, pages: seq<nat>, r: nat, p: nat)
    requires Safe(t) && !Trespass(t, seen, pages) && r in t.rounds && p in t.rounds[r]
    requires Alloc(t.free, |pages|) == Some((words, left))
    ensures !Target(seen, words, pages, SlotOf(t.rounds[r][p]))
  {
    hide Words, Disjoint, Spread, Safe, Alloc;
    SafeDisjoint(t);
    AllocTakesSmallest(t.free, |pages|);
    RoundWord(t, r, p);
    var s := SlotOf(t.rounds[r][p]);
    assert InRound(t, r, p, s);
    forall i | 0 <= i < |words| ensures SlotOf(words[i]) != s {
      assert words[i] in Elems(words);
      TakenUnused(t, words[i]);
    }
  }

  lemma RoundWord(t: Tables, r: nat, p: nat)
    requires Safe(t) && r in t.rounds && p in t.rounds[r]
    ensures SlotOf(t.rounds[r][p]) == t.rounds[r][p]
  {
    assert InRound(t, r, p, t.rounds[r][p]);
  }

  ghost predicate KeepsRounds(s: Store, u: Store) {
    forall r :: r in s.tables.rounds ==> View(s.tables.rounds[r], u.file) == View(s.tables.rounds[r], s.file)
  }

  function Other(x: Page): (y: Page)
    ensures y != x
  {
    var y := x[0 := if x[0] == 0 then 1 else 0];
    assert y[0] != x[0];
    y
  }

  lemma StaleBreaks(s: Store, seen: Table, pages: seq<nat>) returns (mem: Memory)
    requires Safe(s.tables) && Trespass(s.tables, seen, pages) && Alloc(s.tables.free, |pages|).Some?
    ensures (forall p :: p in pages ==> p in mem) && SoftCommit(s, seen, mem, pages).Some?
    ensures !KeepsRounds(s, SoftCommit(s, seen, mem, pages).value)
  {
    hide Words, Disjoint, Spread, Safe, Alloc, WritePages;
    var p, r, q :| p in pages && !SharedIn(seen, p) && InRound(s.tables, r, q, TableInfo(seen, p).1);
    var slot := TableInfo(seen, p).1;
    var x := Other(ReadSlot(s.file, slot));
    mem := map z | z in pages :: x;
    SafeDisjoint(s.tables);
    AllocTakesSmallest(s.tables.free, |pages|);
    var (words, left) := Alloc(s.tables.free, |pages|).value;
    WritesStay(seen, mem, words, s.file, pages, p, x);
    var u := SoftCommit(s, seen, mem, pages).value;
    RoundWord(s.tables, r, q);
    assert View(s.tables.rounds[r], u.file)[q] == x;
    assert View(s.tables.rounds[r], s.file)[q] != x;
  }

  /** Through any mapping, a commit leaves every snapshot alone whatever is written exactly when the
      mapping calls no slot private that a completed round uses. */
  lemma StaleCommitExact(s: Store, seen: Table, pages: seq<nat>)
    requires Safe(s.tables) && Alloc(s.tables.free, |pages|).Some?
    ensures (forall mem: Memory :: (forall p :: p in pages ==> p in mem) && SoftCommit(s, seen, mem, pages).Some? ==>
              KeepsRounds(s, SoftCommit(s, seen, mem, pages).value))
            <==> !Trespass(s.tables, seen, pages)
  {
    hide Safe, SoftCommit, KeepsRounds, Trespass, Alloc;
    if Trespass(s.tables, seen, pages) {
      var mem := StaleBreaks(s, seen, pages);
    } else {
      forall mem: Memory | (forall p :: p in pages ==> p in mem) && SoftCommit(s, seen, mem, pages).Some?
        ensures KeepsRounds(s, SoftCommit(s, seen, mem, pages).value)
      {
        StaleKeeps(s, seen, mem, pages);
      }
    }
  }

  /** A mapping made from the current table never trespasses, so neither does one made before a
      snapshot if the commit comes before that snapshot. */
  lemma FreshNeverTrespasses(t: Tables, pages: seq<nat>)
    requires Safe(t)
    ensures !Trespass(t, t.current, pages)
  {
    hide Words, Disjoint, Spread;
    forall p, r, q | p in pages && !SharedIn(t.current, p) ensures !InRound(t, r, q, TableInfo(t.current, p).1) {
      assert Mapped(t, p, TableInfo(t.current, p).1);
    }
  }

  /** A mapping made before a snapshot does: every page that was private then is a trespass now. */
  lemma SnapshotMakesStale(t: Tables, round: nat, p: nat)
    requires Safe(t) && p in t.current && !IsShared(t.current[p])
    ensures Trespass(EndRound(t, round), t.current, [p])
  {
    hide Words, Disjoint, Spread;
    var u := EndRound(t, round);
    assert InRound(u, round, p, SlotOf(t.current[p]));
    assert p in [p] && !SharedIn(t.current, p) && TableInfo(t.current, p).1 == SlotOf(t.current[p]);
  }

  // ----- what a stale mapping does to the current state -----

  /** The commit shows exactly the committed pages in the current state, and no round changes. */
  ghost predicate Shows(s: Store, mem: Memory, pages: seq<nat>, u: Store)
    requires forall p :: p in pages ==> p in mem
  {
    && View(u.tables.current, u.file) == View(s.tables.current, s.file) + (map p | p in pages :: mem[p])
    && KeepsRounds(s, u)
  }

  /** Where the mapping calls a slot private, the slot is still the page's own, and no round uses it. */
  ghost predicate OwnSlots(t: Tables, seen: Table, pages: seq<nat>) {
    forall p :: p in pages && !SharedIn(seen, p) ==>
      Mapped(t, p, TableInfo(seen, p).1) && forall r, q :: !InRound(t, r, q, TableInfo(seen, p).1)
  }

  /** The part of a mapping that decides where a commit writes. */
  ghost function InPlace(seen: Table, pages: seq<nat>): Table {
    map p | p in pages && !SharedIn(seen, p) :: seen[p]
  }

  /** Same writes, whatever the mapping says of the slots that pages move away from. */
  ghost predicate Alike(a: Writing, b: Writing) {
    && a.pool == b.pool && a.file == b.file && a.puts.Keys == b.puts.Keys
    && forall p :: p in a.puts ==> a.puts[p].0 == b.puts[p].0
  }

  lemma {:induction false} WritesAlike(seen: Table, other: Table, mem: Memory, w: Writing, pages: seq<nat>)
    requires |pages| <= |w.pool| && forall p :: p in pages ==> p in mem
    requires forall p :: p in pages ==> SharedIn(seen, p) == SharedIn(other, p)
    requires forall p :: p in pages && !SharedIn(seen, p) ==> TableInfo(seen, p).1 == TableInfo(other, p).1
    ensures Alike(WritePages(seen, mem, w, pages), WritePages(other, mem, w, pages))
  {
    if pages != [] {
      hide TableInfo;
      var n := |pages| - 1;
      assert pages[n] in pages;
      WritesAlike(seen, other, mem, w, pages[..n]);
      hide WritePages, Alike;
      var a, b := WritePages(seen, mem, w, pages[..n]), WritePages(other, mem, w, pages[..n]);
      AlikeStep(seen, other, mem, a, b, pages[n]);
    }
  }

  lemma AlikeStep(seen: Table, other: Table, mem: Memory, a: Writing, b: Writing, p: nat)
    requires p in mem && a.pool != [] && Alike(a, b) && SharedIn(seen, p) == SharedIn(other, p)
    requires !SharedIn(seen, p) ==> TableInfo(seen, p).1 == TableInfo(other, p).1
    ensures b.pool != [] && Alike(WritePage(seen, mem, a, p), WritePage(other, mem, b, p))
  {
    hide TableInfo;
  }

  lemma InPlaceInfo(seen: Table, pages: seq<nat>, p: nat)
    requires p in pages
    ensures SharedIn(seen, p) == SharedIn(InPlace(seen, pages), p)
    ensures !SharedIn(seen, p) ==> TableInfo(seen, p).1 == TableInfo(InPlace(seen, pages), p).1
  {
  }

  /** The slots written in place are mapped, so new words name others. */
  lemma InPlaceApart(t: Tables, seen: Table, pages: seq<nat>, words: seq<nat>)
    requires Safe(t) && OwnSlots(t, seen, pages) && Apart(t.current, words)
    ensures Apart(InPlace(seen, pages), words)
  {
    hide Safe;
    var eff := InPlace(seen, pages);
    forall p | p in eff ensures p in t.current && SlotOf(eff[p]) == SlotOf(t.current[p]) && eff[p] != INVALID_SLOT {
      assert Mapped(t, p, TableInfo(seen, p).1);
    }
  }

  /** What a commit through such a mapping leaves in the file. */
  lemma StaleWrites(s: Store, seen: Table, mem: Memory, pages: seq<nat>, words: seq<nat>, left: FreeList, w: Writing)
    requires Safe(s.tables) && OwnSlots(s.tables, seen, pages) && forall p :: p in pages ==> p in mem
    requires Alloc(s.tables.free, |pages|) == Some((words, left))
    requires w == WritePages(seen, mem, Writing(words, s.file, map[]), pages)
    ensures forall p :: p in w.puts <==> p in pages && SharedIn(seen, p)
    ensures forall p :: p in w.puts ==> ReadSlot(w.file, SlotOf(w.puts[p].0)) == mem[p] && w.puts[p].0 in words
    ensures forall p :: p in pages && !SharedIn(seen, p) ==> ReadSlot(w.file, TableInfo(seen, p).1) == mem[p]
    ensures forall x :: ReadSlot(w.file, x) != ReadSlot(s.file, x) ==> Target(InPlace(seen, pages), words, pages, x)
  {
    hide Safe, Words, Disjoint, Alloc, Apart, OwnSlots, WritePages, Target, TableInfo, ReadSlot, InPlace;
    var eff := InPlace(seen, pages);
    SafeDisjoint(s.tables);
    AllocTakesSmallest(s.tables.free, |pages|);
    AllocatedApart(s.tables, words);
    InPlaceApart(s.tables, seen, pages, words);
    forall p | p in pages
      ensures SharedIn(seen, p) == SharedIn(eff, p)
      ensures !SharedIn(seen, p) ==> TableInfo(seen, p).1 == TableInfo(eff, p).1
    {
      InPlaceInfo(seen, pages, p);
    }
    WritesAlike(seen, eff, mem, Writing(words, s.file, map[]), pages);
    WritePagesPuts(eff, mem, words, s.file, pages);
    WritePagesFiles(eff, mem, words, s.file, pages);
  }

  /** What a page reads as after such a commit. */
  lemma StaleReads(s: Store, seen: Table, mem: Memory, pages: seq<nat>, p: nat)
    requires Safe(s.tables) && OwnSlots(s.tables, seen, pages) && forall q :: q in pages ==> q in mem
    requires SoftCommit(s, seen, mem, pages).Some?
    ensures var u := SoftCommit(s, seen, mem, pages).value;
      && (p in u.tables.current <==> p in s.tables.current || p in pages)
      && (p in u.tables.current ==>
          ReadSlot(u.file, SlotOf(u.tables.current[p])) ==
          if p in pages then mem[p] else ReadSlot(s.file, SlotOf(s.tables.current[p])))
  {
    hide Safe, Words, Disjoint, Alloc, WritePages, Target, ReadSlot, PutBack, InPlace, TableInfo;
    var (words, left) := Alloc(s.tables.free, |pages|).value;
    var w := WritePages(seen, mem, Writing(words, s.file, map[]), pages);
    StaleWrites(s, seen, mem, pages, words, left, w);
    if p !in pages && p in s.tables.current {
      NotWritten(s.tables, seen, pages, words, left, p);
    }
  }

  /** A page that is not committed keeps its slot to itself. */
  lemma NotWritten(t: Tables, seen: Table, pages: seq<nat>, words: seq<nat>, left: FreeList, p: nat)
    requires Safe(t) && OwnSlots(t, seen, pages) && p in t.current && p !in pages
    requires Alloc(t.free, |pages|) == Some((words, left))
    ensures !Target(InPlace(seen, pages), words, pages, SlotOf(t.current[p]))
  {
    hide Words, Disjoint, Spread, Alloc;
    var c := SlotOf(t.current[p]);
    SafeDisjoint(t);
    AllocTakesSmallest(t.free, |pages|);
    assert Mapped(t, p, c);
    forall i | 0 <= i < |words| ensures SlotOf(words[i]) != c {
      assert words[i] in Elems(words);
      TakenUnused(t, words[i]);
    }
    forall q | q in pages && !SharedIn(InPlace(seen, pages), q) ensures TableInfo(InPlace(seen, pages), q).1 != c {
      InPlaceInfo(seen, pages, q);
      assert Mapped(t, q, TableInfo(seen, q).1);
    }
  }

  lemma StaleShows(s: Store, seen: Table, mem: Memory, pages: seq<nat>)
    requires Safe(s.tables) && OwnSlots(s.tables, seen, pages) && forall p :: p in pages ==> p in mem
    requires SoftCommit(s, seen, mem, pages).Some?
    ensures Shows(s, mem, pages, SoftCommit(s, seen, mem, pages).value)
  {
    hide Safe, SoftCommit, OwnSlots, ReadSlot;
    var u := SoftCommit(s, seen, mem, pages).value;
    forall p: nat
      ensures p in u.tables.current <==> p in s.tables.current || p in pages
      ensures p in u.tables.current ==>
        ReadSlot(u.file, SlotOf(u.tables.current[p])) ==
        if p in pages then mem[p] else ReadSlot(s.file, SlotOf(s.tables.current[p]))
    {
      StaleReads(s, seen, mem, pages, p);
    }
    assert !Trespass(s.tables, seen, pages) by { OwnNoTrespass(s.tables, seen, pages); }
    StaleKeeps(s, seen, mem, pages);
    assert View(u.tables.current, u.file) == View(s.tables.current, s.file) + (map p | p in pages :: mem[p]);
  }

  lemma OwnNoTrespass(t: Tables, seen: Table, pages: seq<nat>)
    requires OwnSlots(t, seen, pages)
    ensures !Trespass(t, seen, pages)
  {
  }

  /** A slot none of whose writers brings anything new stays as it is. */
  lemma {:induction false} WritesAvoid(
      seen: Table, mem: Memory, words: seq<nat>, file: FileMap, pages: seq<nat>, c: nat)
    requires |pages| <= |words| && forall q :: q in pages ==> q in mem
    requires forall i :: 0 <= i < |words| ==> SlotOf(words[i]) != c
    requires forall q :: q in pages && !SharedIn(seen, q) && TableInfo(seen, q).1 == c ==> mem[q] == ReadSlot(file, c)
    ensures var w := WritePages(seen, mem, Writing(words, file, map[]), pages);
      ReadSlot(w.file, c) == ReadSlot(file, c) && forall x :: x in w.pool ==> x in words
  {
    if pages != [] {
      hide TableInfo, SlotOf;
      var n := |pages| - 1;
      assert pages[n] in pages;
      WritesAvoid(seen, mem, words, file, pages[..n], c);
      var w := WritePages(seen, mem, Writing(words, file, map[]), pages[..n]);
      assert w.pool[0] in w.pool;
    }
  }

  /** Writing a page to a slot that is not its own does not show, for some contents. */
  lemma ForeignSlot(s: Store, seen: Table, pages: seq<nat>, p: nat) returns (mem: Memory)
    requires Safe(s.tables) && Alloc(s.tables.free, |pages|).Some?
    requires p in pages && !SharedIn(seen, p) && !Mapped(s.tables, p, TableInfo(seen, p).1)
    ensures (forall q :: q in pages ==> q in mem) && SoftCommit(s, seen, mem, pages).Some?
    ensures !Shows(s, mem, pages, SoftCommit(s, seen, mem, pages).value)
  {
    hide Safe, Words, Disjoint, Alloc, WritePages, ReadSlot, PutBack, TableInfo, KeepsRounds;
    var c := if p in s.tables.current then SlotOf(s.tables.current[p]) else 0;
    var y := ReadSlot(s.file, c);
    mem := map q | q in pages :: if q == p then Other(y) else y;
    var (words, left) := Alloc(s.tables.free, |pages|).value;
    var w := WritePages(seen, mem, Writing(words, s.file, map[]), pages);
    var u := SoftCommit(s, seen, mem, pages).value;
    assert p !in w.puts by { OnlySharedPut(seen, mem, words, s.file, pages); }
    assert p in View(u.tables.current, u.file) <==> p in s.tables.current;
    if p in s.tables.current {
      MappedNotTaken(s.tables, pages, words, left, p);
      WritesAvoid(seen, mem, words, s.file, pages, c);
      assert View(u.tables.current, u.file)[p] == y;
    }
  }

  lemma OnlySharedPut(seen: Table, mem: Memory, words: seq<nat>, file: FileMap, pages: seq<nat>)
    requires |pages| <= |words| && forall p :: p in pages ==> p in mem
    ensures forall p :: p in WritePages(seen, mem, Writing(words, file, map[]), pages).puts ==> SharedIn(seen, p)
  {
    hide WritePages;
    RepeatsCounted(seen, mem, words, file, pages);
  }

  lemma MappedNotTaken(t: Tables, pages: seq<nat>, words: seq<nat>, left: FreeList, p: nat)
    requires Safe(t) && p in t.current && Alloc(t.free, |pages|) == Some((words, left))
    ensures forall i :: 0 <= i < |words| ==> SlotOf(words[i]) != SlotOf(t.current[p])
  {
    hide Words, Disjoint, Spread, Alloc;
    SafeDisjoint(t);
    AllocTakesSmallest(t.free, |pages|);
    assert Mapped(t, p, SlotOf(t.current[p]));
    forall i | 0 <= i < |words| ensures SlotOf(words[i]) != SlotOf(t.current[p]) {
      assert words[i] in Elems(words);
      TakenUnused(t, words[i]);
    }
  }

  /** Through any mapping, a commit shows what it wrote, and nothing else, whatever it is, exactly when
      each slot it writes in place is still the page's own and no round uses it. */
  lemma StaleShowsExact(s: Store, seen: Table, pages: seq<nat>)
    requires Safe(s.tables) && Alloc(s.tables.free, |pages|).Some?
    ensures (forall mem: Memory :: (forall p :: p in pages ==> p in mem) && SoftCommit(s, seen, mem, pages).Some? ==>
              Shows(s, mem, pages, SoftCommit(s, seen, mem, pages).value))
            <==> OwnSlots(s.tables, seen, pages)
  {
    hide Safe, SoftCommit, Alloc, View, InRound, Mapped, KeepsRounds, TableInfo;
    if OwnSlots(s.tables, seen, pages) {
      forall mem: Memory | (forall p :: p in pages ==> p in mem) && SoftCommit(s, seen, mem, pages).Some?
        ensures Shows(s, mem, pages, SoftCommit(s, seen, mem, pages).value)
      {
        StaleShows(s, seen, mem, pages);
      }
    } else {
      var p :| p in pages && !SharedIn(seen, p) &&
        !(Mapped(s.tables, p, TableInfo(seen, p).1) && forall r, q :: !InRound(s.tables, r, q, TableInfo(seen, p).1));
      if Mapped(s.tables, p, TableInfo(seen, p).1) {
        var r, q :| InRound(s.tables, r, q, TableInfo(seen, p).1);
        assert Trespass(s.tables, seen, pages);
        var mem := StaleBreaks(s, seen, pages);
      } else {
        var mem := ForeignSlot(s, seen, pages, p);
      }
    }
  }

  /** A mapping of any age that still agrees with the current table on the committed pages is as good
      as a fresh one. */
  lemma {:induction false} SameWrites(seen: Table, other: Table, mem: Memory, w: Writing, pages: seq<nat>)
    requires |pages| <= |w.pool| && forall p :: p in pages ==> p in mem
    requires forall p :: p in pages ==> TableInfo(seen, p) == TableInfo(other, p)
    ensures WritePages(seen, mem, w, pages) == WritePages(other, mem, w, pages)
  {
    if pages != [] {
      hide TableInfo;
      SameWrites(seen, other, mem, w, pages[..|pages| - 1]);
    }
  }

  lemma AgreeingCommit(s: Store, seen: Table, mem: Memory, pages: seq<nat>)
    requires Safe(s.tables) && forall p :: p in pages ==> p in mem
    requires forall p :: p in pages ==> TableInfo(seen, p) == TableInfo(s.tables.current, p)
    ensures SoftCommit(s, seen, mem, pages) == SoftCommit(s, s.tables.current, mem, pages)
    ensures var r := SoftCommit(s, seen, mem, pages);
      && (r.None? <==> |Words(s.tables.free)| < |pages|)
      && (r.Some? ==> Committed(s, mem, pages, r.value))
  {
    hide Safe, Words, WritePages, TableInfo, Alloc, PutBack, PutMappings, View;
    CommitCorrect(s, mem, pages);
    if Alloc(s.tables.free, |pages|).Some? {
      var (words, left) := Alloc(s.tables.free, |pages|).value;
      SameWrites(seen, s.tables.current, mem, Writing(words, s.file, map[]), pages);
    }
  }

  /** What committing a single page that the mapping calls shared does. */
  lemma CommitOne(s: Store, seen: Table, p: nat, x: Page, k: nat, left: FreeList)
    requires Alloc(s.tables.free, 1) == Some(([k], left)) && SharedIn(seen, p)
    ensures var r := SoftCommit(s, seen, map[p := x], [p]);
      && r.Some?
      && r.value.file == s.file[SlotOf(k) := x]
      && r.value.tables == PutMappings(s.tables.(free := left), map[p := (k, TableInfo(seen, p).1)])
  {
    hide Alloc;
    var w := Writing([k], s.file, map[]);
    var mem: Memory := map[p := x];
    assert [p][..0] == [];
    assert WritePages(seen, mem, w, []) == w;
    assert WritePages(seen, mem, w, [p]) == WritePage(seen, mem, w, p);
    assert Elems([k][1..]) == {};
    assert PutBack(left, {}) == left;
  }

  function PutOne(t: Tables, p: nat, k: nat, prior: nat): Tables {
    t.(current := t.current[p := MarkPrivate(k)],
       gc := if prior == INVALID_SLOT then t.gc else t.gc[prior := t.last])
  }

  lemma PutOneIs(t: Tables, p: nat, k: nat, prior: nat)
    ensures PutMappings(t, map[p := (k, prior)]) == PutOne(t, p, k, prior)
  {
    hide Overwritten, MarkPrivate, Published, Dropped;
    var puts: Puts := map[p := (k, prior)];
    PutMappingsStep(t, puts, p);
    var none: Puts := puts - {p};
    assert none == map[];
    NothingPublished(t, none);
  }

  lemma NothingPublished(t: Tables, none: Puts)
    requires none == map[]
    ensures PutMappings(t, none) == t
  {
  }

  /** A commit of one page through the mapping. */
  ghost predicate CommitsTo(s: Store, seen: Table, p: nat, x: Page, u: Store) {
    SoftCommit(s, seen, map[p := x], [p]) == Some(u)
  }

  /** A commit of one page that the mapping calls shared takes one word off the free list. */
  lemma CommitsOne(s: Store, seen: Table, p: nat, x: Page, u: Store) returns (k: nat, left: FreeList)
    requires Safe(s.tables) && SharedIn(seen, p) && CommitsTo(s, seen, p, x, u)
    ensures k in Words(s.tables.free) && Words(left) <= Words(s.tables.free)
    ensures u.tables == PutOne(s.tables.(free := left), p, k, TableInfo(seen, p).1)
  {
    hide Safe, Words, Disjoint, Alloc, WritePages, PutMappings, TableInfo, PutOne, PutBack;
    SafeDisjoint(s.tables);
    AllocTakesSmallest(s.tables.free, 1);
    var (words, rest) := Alloc(s.tables.free, 1).value;
    k, left := words[0], rest;
    assert words == [k] && k in Elems(words);
    hide SoftCommit;
    CommitOne(s, seen, p, x, k, left);
    PutOneIs(s.tables.(free := left), p, k, TableInfo(seen, p).1);
  }

  /** Committing a page twice through one map, when it was shared at first, loses the slot that the
      first commit gave it. */
  lemma SecondCommitLoses(s: Store, p: nat, x: Page, y: Page, s1: Store, s2: Store)
    requires Safe(s.tables) && GcPending(s.tables) && SharedIn(s.tables.current, p)
    requires CommitsTo(s, s.tables.current, p, x, s1) && CommitsTo(s1, s.tables.current, p, y, s2)
    ensures p in s1.tables.current && IsLost(s2.tables, SlotOf(s1.tables.current[p]))
  {
    hide Safe, GcPending, SoftCommit, Words, IsLost, PutOne, SharedIn, Abs, NaiveStep;
    var e := Commit([p], map[p := x]);
    StepExact(s, e);
    CommitPending(s, e);
    assert Apply(s, e) == s1;
    hide CommitsTo, Apply, Possible;
    var k1, left1 := CommitsOne(s, s.tables.current, p, x, s1);
    var k2, left2 := CommitsOne(s1, s.tables.current, p, y, s2);
    OneLost(s.tables, s1.tables, s2.tables, p, k1, left1, k2, left2);
  }

  lemma OneLost(t: Tables, t1: Tables, t2: Tables, p: nat, k1: nat, left1: FreeList, k2: nat, left2: FreeList)
    requires Safe(t) && Safe(t1) && GcPending(t1) && SharedIn(t.current, p)
    requires k1 in Words(t.free) && k2 in Words(t1.free) && Words(left2) <= Words(t1.free)
    requires t1 == PutOne(t.(free := left1), p, k1, TableInfo(t.current, p).1)
    requires t2 == PutOne(t1.(free := left2), p, k2, TableInfo(t.current, p).1)
    ensures p in t1.current && IsLost(t2, SlotOf(t1.current[p]))
  {
    hide Words, Safe, GcPending;
    var x := SlotOf(t1.current[p]);
    assert x == SlotOf(k1) && Mapped(t1, p, x);
    OwnSlot(t1, p, x);
    TakenUnused(t1, k2);
    NotReplaced(t, p, k1);
    forall q ensures !Mapped(t2, q, x) {
      assert q != p ==> (Mapped(t2, q, x) <==> Mapped(t1, q, x));
      assert q == p ==> (Mapped(t2, q, x) <==> SlotOf(k2) == x);
    }
  }

  lemma OwnSlot(t: Tables, p: nat, x: nat)
    requires Safe(t) && GcPending(t) && Mapped(t, p, x)
    ensures x < t.nrSlots && !IsFree(t, x) && x !in t.gc && forall q :: Mapped(t, q, x) ==> q == p
  {
    hide Words, Disjoint, Spread;
  }

  /** The slot a page moves to is not the one it leaves. */
  lemma NotReplaced(t: Tables, p: nat, k: nat)
    requires Safe(t) && SharedIn(t.current, p) && k in Words(t.free)
    ensures TableInfo(t.current, p).1 != SlotOf(k)
  {
    hide Words, Disjoint, Spread;
    TakenUnused(t, k);
    assert p in t.current ==> Mapped(t, p, SlotOf(t.current[p]));
  }
}

/** What a commit through a mapping of any age does to the tables: when they stay safe, and when no slot
    is lost, exactly. */
module CowStaleTables {
  import opened Basics
  import opened SlotWords
  import opened SortedTables
  import opened FreeLists
  import opened RangeMaps
  import opened SlotTables
  import opened CowStore
  import opened StatePages
  import opened CowConservation
  import opened CowStale

  // ----- publishing words, whatever slots are recorded as replaced -----

  /** The slot may be recorded as replaced now: it is no free slot, unless it is taken and given up, no page
      keeps it, and no round after the last executed one uses it. */
  ghost predicate Replaceable(t: Tables, taken: set<nat>, puts: Puts, s: nat) {
    && s < t.nrSlots && (IsFree(t, s) ==> GivenUp(taken, puts, s))
    && (forall q :: Mapped(t, q, s) ==> q in puts)
    && (forall r: nat, q: nat :: InRound(t, r, q, s) ==> r <= t.last)
  }

  /** It is neither free nor mapped afterwards. */
  lemma ReplacedGone(t: Tables, f: FreeList, taken: set<nat>, puts: Puts, s: nat)
    requires Safe(t) && Took(t.free, taken, f) && PutsNew(taken, puts)
    requires (IsFree(t, s) ==> GivenUp(taken, puts, s)) && forall q :: Mapped(t, q, s) ==> q in puts
    ensures var u := PutMappings(t.(free := f), puts); !InCurrent(u, s) && !IsFree(u, s) && !Spread(f, s)
  {
    hide Words, Disjoint, Spread, PutsNew, Safe, InRound, GivenUp;
    SpreadIsWord(f, s);
    if IsFree(t, s) {
      GivenUpGone(t, f, taken, puts, s);
    } else {
      NotPublished(t, f, taken, puts, s);
    }
  }

  lemma PublishGcSafe(t: Tables, f: FreeList, taken: set<nat>, puts: Puts)
    requires Safe(t) && GcPending(t) && Took(t.free, taken, f) && PutsNew(taken, puts)
    requires forall s :: s in Overwritten(puts) ==> Replaceable(t, taken, puts, s)
    ensures var u := PutMappings(t.(free := f), puts);
      && GcHistory(u) && GcPending(u)
      && (forall s :: s in u.gc ==> s < t.nrSlots && !Spread(f, s))
  {
    hide Words, Disjoint, Spread, PutsNew, GivenUp, Took;
    var u := PutMappings(t.(free := f), puts);
    forall s | s in u.gc
      ensures !InCurrent(u, s) && !IsFree(u, s) && s < t.nrSlots && !Spread(f, s)
    {
      assert s in t.gc ==> s < t.nrSlots && !IsFree(t, s) && !InCurrent(t, s);
      ReplacedGone(t, f, taken, puts, s);
    }
    forall s, r, q | s in u.gc && InRound(u, r, q, s) ensures r <= u.gc[s] || InCurrent(u, s) {
      assert InRound(t, r, q, s);
    }
  }

  lemma PublishAnySafe(t: Tables, f: FreeList, taken: set<nat>, puts: Puts)
    requires Safe(t) && GcPending(t) && Took(t.free, taken, f) && PutsNew(taken, puts)
    requires forall s :: s in Overwritten(puts) ==> Replaceable(t, taken, puts, s)
    ensures var u := PutMappings(t.(free := f), puts); Safe(u) && GcPending(u)
  {
    hide Words, Disjoint, Spread, Replaceable;
    PublishKeepsPages(t, f, taken, puts);
    PublishKeepsFree(t, f, taken, puts);
    PublishGcSafe(t, f, taken, puts);
    var u := PutMappings(t.(free := f), puts);
    forall p | p in u.current ensures u.current[p] != INVALID_SLOT {
      assert Mapped(u, p, SlotOf(u.current[p]));
    }
    forall r: nat, p: nat, s: nat | InRound(u, r, p, s) ensures s < u.nrSlots {
      assert InRound(t, r, p, s);
    }
  }

  /** Recording any other slot leaves the tables unsafe, or an entry that is stale from the start. */
  lemma PublishAnyNeeds(t: Tables, f: FreeList, taken: set<nat>, puts: Puts, s: nat)
    requires Safe(t) && Took(t.free, taken, f)
    requires var u := PutMappings(t.(free := f), puts); Safe(u) && GcPending(u)
    requires s in Overwritten(puts)
    ensures Replaceable(t, taken, puts, s)
  {
    hide Words, Disjoint, Spread, GivenUp;
    var u := PutMappings(t.(free := f), puts);
    assert s in u.gc && s < t.nrSlots && !InCurrent(u, s) && !IsFree(u, s);
    forall q ensures Mapped(t, q, s) ==> q in puts {
      PutsMapped(t, f, puts, q, s);
    }
    forall r: nat, q: nat | InRound(t, r, q, s) ensures r <= t.last {
      assert InRound(u, r, q, s);
    }
    if IsFree(t, s) { FreeOrTaken(t, f, taken, puts, s); }
  }

  /** A slot that was free is free still, mapped, or given up. */
  lemma FreeOrTaken(t: Tables, f: FreeList, taken: set<nat>, puts: Puts, s: nat)
    requires Safe(t) && s < t.nrSlots && Took(t.free, taken, f) && IsFree(t, s)
    ensures var u := PutMappings(t.(free := f), puts); IsFree(u, s) || InCurrent(u, s) || GivenUp(taken, puts, s)
  {
    hide Words, Disjoint, Spread, Safe;
    SmallSlot(t, s);
    var x :| (x == s || x == s + TAG) && x in Words(t.free);
    if p :| p in puts && puts[p].0 == x {
      PutsMapped(t, f, puts, p, s);
    }
  }

  // ----- the slots a commit takes and gives up -----

  /** The listed pages that need a new slot, in order. */
  ghost function SharedOnly(seen: Table, pages: seq<nat>): seq<nat> {
    if pages == [] then [] else
      var n := |pages| - 1;
      SharedOnly(seen, pages[..n]) + if SharedIn(seen, pages[n]) then [pages[n]] else []
  }

  /** They get the words in order: a page listed again moves on, and leaves its word to nobody. */
  ghost predicate Wasted(t: Tables, seen: Table, pages: seq<nat>, x: nat) {
    match Alloc(t.free, |pages|)
    case None => false
    case Some((words, _)) => LeftBehind(words, SharedOnly(seen, pages), x)
  }

  ghost predicate LeftBehind(words: seq<nat>, all: seq<nat>, x: nat) {
    exists i :: 0 <= i < |all| && i < |words| && all[i] in all[i + 1..] && SlotOf(words[i]) == x
  }

  ghost predicate InTurn(words: seq<nat>, all: seq<nat>, w: Writing) {
    && |all| <= |words| && w.pool == words[|all|..]
    && (forall p :: p in w.puts <==> p in all)
    && (forall i :: 0 <= i < |all| && all[i] !in all[i + 1..] ==> w.puts[all[i]].0 == words[i])
  }

  lemma InTurnStep(words: seq<nat>, all: seq<nat>, w: Writing, seen: Table, mem: Memory, page: nat)
    requires InTurn(words, all, w) && page in mem && w.pool != []
    ensures InTurn(words, all + if SharedIn(seen, page) then [page] else [], WritePage(seen, mem, w, page))
  {
    hide TableInfo;
    if SharedIn(seen, page) {
      var next, v := all + [page], WritePage(seen, mem, w, page);
      forall i | 0 <= i < |next| && next[i] !in next[i + 1..] ensures v.puts[next[i]].0 == words[i] {
        if i < |all| {
          assert next[i + 1..] == all[i + 1..] + [page];
          assert page in next[i + 1..];
        }
      }
    } else {
      assert all + [] == all;
    }
  }

  lemma {:induction false} WrittenInTurn(seen: Table, mem: Memory, words: seq<nat>, file: FileMap, pages: seq<nat>)
    requires |pages| <= |words| && forall p :: p in pages ==> p in mem
    ensures InTurn(words, SharedOnly(seen, pages), WritePages(seen, mem, Writing(words, file, map[]), pages))
  {
    hide InTurn, WritePage, SharedIn;
    if pages == [] {
      InTurnNone(words, file);
    } else {
      var n := |pages| - 1;
      WrittenInTurn(seen, mem, words, file, pages[..n]);
      var w := WritePages(seen, mem, Writing(words, file, map[]), pages[..n]);
      InTurnStep(words, SharedOnly(seen, pages[..n]), w, seen, mem, pages[n]);
    }
  }

  lemma InTurnNone(words: seq<nat>, file: FileMap)
    ensures InTurn(words, [], Writing(words, file, map[]))
  {
  }

  lemma {:induction false} LastIndex(all: seq<nat>, p: nat) returns (i: nat)
    requires p in all
    ensures i < |all| && all[i] == p && p !in all[i + 1..]
  {
    var n := |all| - 1;
    if all[n] == p {
      i := n;
    } else {
      i := LastIndex(all[..n], p);
      assert all[i + 1..] == all[..n][i + 1..] + [all[n]];
    }
  }

  /** A word used is published unless its page is listed again. */
  lemma PublishedOrLeft(words: seq<nat>, all: seq<nat>, w: Writing, i: nat)
    requires InTurn(words, all, w) && Ascending(words) && i < |all|
    ensures Unmapped(w.puts, words[i]) <==> all[i] in all[i + 1..]
  {
    forall p | p in w.puts && w.puts[p].0 == words[i] ensures all[i] !in all[i + 1..] {
      var j := LastIndex(all, p);
      assert w.puts[all[j]].0 == words[j];
    }
  }

  lemma UsedIs(words: seq<nat>, all: seq<nat>, w: Writing)
    requires InTurn(words, all, w)
    ensures |all| <= |words| && |w.pool| <= |words| && Used(words, w.pool) == words[..|all|]
  {
  }

  lemma GivenUpIsLeft(words: seq<nat>, all: seq<nat>, w: Writing, v: nat)
    requires InTurn(words, all, w) && Ascending(words) && |all| <= |words|
    requires v in words[..|all|] && Unmapped(w.puts, v)
    ensures LeftBehind(words, all, SlotOf(v))
  {
    hide SlotOf, Unmapped, InTurn, Ascending;
    var i :| 0 <= i < |all| && words[i] == v;
    PublishedOrLeft(words, all, w, i);
  }

  lemma LeftIsGivenUp(words: seq<nat>, all: seq<nat>, w: Writing, x: nat)
    requires InTurn(words, all, w) && Ascending(words) && |all| <= |words| && LeftBehind(words, all, x)
    ensures GivenUp(Elems(words[..|all|]), w.puts, x)
  {
    hide SlotOf, Unmapped, InTurn, Ascending;
    var i :| 0 <= i < |all| && i < |words| && all[i] in all[i + 1..] && SlotOf(words[i]) == x;
    PublishedOrLeft(words, all, w, i);
    assert words[..|all|][i] == words[i];
    assert words[i] in Elems(words[..|all|]);
  }

  /** So the slots taken and given up are those of the words that are left behind. */
  lemma GivenUpExactly(words: seq<nat>, all: seq<nat>, w: Writing, x: nat)
    requires InTurn(words, all, w) && Ascending(words)
    ensures |w.pool| <= |words| && (GivenUp(Elems(Used(words, w.pool)), w.puts, x) <==> LeftBehind(words, all, x))
  {
    hide SlotOf, Unmapped, InTurn, Ascending, LeftBehind, Used;
    UsedIs(words, all, w);
    if LeftBehind(words, all, x) {
      LeftIsGivenUp(words, all, w, x);
    }
    if v :| v in Elems(words[..|all|]) && Unmapped(w.puts, v) && SlotOf(v) == x {
      GivenUpIsLeft(words, all, w, v);
    }
  }

  lemma {:induction false} SharedOnlyIs(seen: Table, pages: seq<nat>)
    ensures forall p :: p in SharedOnly(seen, pages) <==> p in pages && SharedIn(seen, p)
  {
    hide SharedIn;
    if pages != [] {
      var n := |pages| - 1;
      SharedOnlyIs(seen, pages[..n]);
      assert pages == pages[..n] + [pages[n]];
    }
  }

  // ----- commits -----

  /** A commit through such a mapping, taken apart. */
  ghost predicate StaleParts(
      s: Store, seen: Table, mem: Memory, pages: seq<nat>, taken: set<nat>, f: FreeList, puts: Puts)
    requires forall p :: p in pages ==> p in mem
  {
    && Took(s.tables.free, taken, f) && PutsNew(taken, puts)
    && (forall p :: p in puts <==> p in pages && SharedIn(seen, p))
    && (forall p :: p in puts ==> puts[p].1 == TableInfo(seen, p).1)
    && (forall x :: GivenUp(taken, puts, x) <==> Wasted(s.tables, seen, pages, x))
    && SoftCommit(s, seen, mem, pages).Some?
    && SoftCommit(s, seen, mem, pages).value.tables == PutMappings(s.tables.(free := f), puts)
  }

  lemma {:induction false} PriorSlots(seen: Table, mem: Memory, words: seq<nat>, file: FileMap, pages: seq<nat>)
    requires |pages| <= |words| && forall p :: p in pages ==> p in mem
    ensures var w := WritePages(seen, mem, Writing(words, file, map[]), pages);
      forall p :: p in w.puts ==> w.puts[p].1 == TableInfo(seen, p).1
  {
    if pages != [] {
      hide TableInfo;
      PriorSlots(seen, mem, words, file, pages[..|pages| - 1]);
    }
  }

  /** The words a commit uses, and those it publishes. */
  lemma StaleWords(s: Store, seen: Table, mem: Memory, pages: seq<nat>, words: seq<nat>, left: FreeList, w: Writing)
    requires Safe(s.tables) && OwnSlots(s.tables, seen, pages) && forall p :: p in pages ==> p in mem
    requires Alloc(s.tables.free, |pages|) == Some((words, left))
    requires w == WritePages(seen, mem, Writing(words, s.file, map[]), pages)
    ensures |w.pool| <= |words| && w.pool == words[|words| - |w.pool|..]
    ensures PutsNew(Elems(Used(words, w.pool)), w.puts)
    ensures Ascending(words)
  {
    hide Safe, Words, Disjoint, Alloc, Apart, OwnSlots, WritePages, TableInfo, InPlace;
    var eff := InPlace(seen, pages);
    SafeDisjoint(s.tables);
    AllocTakesSmallest(s.tables.free, |pages|);
    AllocatedApart(s.tables, words);
    InPlaceApart(s.tables, seen, pages, words);
    forall p | p in pages
      ensures SharedIn(seen, p) == SharedIn(eff, p)
      ensures !SharedIn(seen, p) ==> TableInfo(seen, p).1 == TableInfo(eff, p).1
    {
      InPlaceInfo(seen, pages, p);
    }
    WritesAlike(seen, eff, mem, Writing(words, s.file, map[]), pages);
    WritePagesPuts(eff, mem, words, s.file, pages);
  }

  lemma StaleCommit(
      s: Store, seen: Table, mem: Memory, pages: seq<nat>) returns (taken: set<nat>, f: FreeList, puts: Puts)
    requires Safe(s.tables) && OwnSlots(s.tables, seen, pages) && forall p :: p in pages ==> p in mem
    requires Alloc(s.tables.free, |pages|).Some?
    ensures StaleParts(s, seen, mem, pages, taken, f, puts)
  {
    hide Safe, OwnSlots, Alloc, WritePages, PutBack, PutMappings, TableInfo, Took, PutsNew, GivenUp, LeftBehind;
    hide SharedIn, SharedOnly;
    var (words, left) := Alloc(s.tables.free, |pages|).value;
    var w := WritePages(seen, mem, Writing(words, s.file, map[]), pages);
    taken, f, puts := Elems(Used(words, w.pool)), PutBack(left, Elems(w.pool)), w.puts;
    StaleWords(s, seen, mem, pages, words, left, w);
    TookAll(s.tables, words, left, |pages|);
    TookUsed(s.tables, words, left, w.pool);
    PriorSlots(seen, mem, words, s.file, pages);
    WrittenInTurn(seen, mem, words, s.file, pages);
    SharedOnlyIs(seen, pages);
    forall x ensures GivenUp(taken, puts, x) <==> Wasted(s.tables, seen, pages, x) {
      GivenUpExactly(words, SharedOnly(seen, pages), w, x);
    }
  }

  // ----- when the tables stay safe -----

  /** The slot may be recorded as replaced by this commit: it is no free slot, unless the commit takes it and
      gives it up, no page keeps it, and no round after the last executed one uses it. */
  ghost predicate Releases(t: Tables, seen: Table, pages: seq<nat>, x: nat) {
    && x < t.nrSlots && (IsFree(t, x) ==> Wasted(t, seen, pages, x))
    && (forall q :: Mapped(t, q, x) ==> q in pages && SharedIn(seen, q))
    && (forall r: nat, q: nat :: InRound(t, r, q, x) ==> r <= t.last)
  }

  ghost predicate RecordsWell(t: Tables, seen: Table, pages: seq<nat>) {
    forall p :: p in pages && SharedIn(seen, p) && TableInfo(seen, p).1 != INVALID_SLOT ==>
      Releases(t, seen, pages, TableInfo(seen, p).1)
  }

  /** The commit shows what it wrote and nothing else, and leaves the tables safe with no stale entry. */
  ghost predicate Kept(s: Store, seen: Table, mem: Memory, pages: seq<nat>)
    requires forall p :: p in pages ==> p in mem
  {
    var r := SoftCommit(s, seen, mem, pages);
    r.Some? && Shows(s, mem, pages, r.value) && Safe(r.value.tables) && GcPending(r.value.tables)
  }

  /** What is recorded, in terms of what the mapping says. */
  lemma RecordedSlots(t: Tables, seen: Table, pages: seq<nat>, taken: set<nat>, puts: Puts)
    requires forall p :: p in puts <==> p in pages && SharedIn(seen, p)
    requires forall p :: p in puts ==> puts[p].1 == TableInfo(seen, p).1
    requires forall x :: GivenUp(taken, puts, x) <==> Wasted(t, seen, pages, x)
    ensures RecordsWell(t, seen, pages) <==> forall x :: x in Overwritten(puts) ==> Replaceable(t, taken, puts, x)
  {
    hide GivenUp, Wasted, IsFree, Mapped, InRound, TableInfo, SharedIn;
    forall x ensures Releases(t, seen, pages, x) <==> Replaceable(t, taken, puts, x) {}
    if RecordsWell(t, seen, pages) {
      forall x | x in Overwritten(puts) ensures Replaceable(t, taken, puts, x) {
        var p :| p in puts && puts[p].1 != INVALID_SLOT && puts[p].1 == x;
      }
    }
    if forall x :: x in Overwritten(puts) ==> Replaceable(t, taken, puts, x) {
      forall p | p in pages && SharedIn(seen, p) && TableInfo(seen, p).1 != INVALID_SLOT
        ensures Releases(t, seen, pages, TableInfo(seen, p).1)
      {
        assert puts[p].1 in Overwritten(puts);
      }
    }
  }

  /** The tables do not depend on what is written. */
  lemma TablesKept(s: Store, seen: Table, mem: Memory, pages: seq<nat>)
    requires Safe(s.tables) && GcPending(s.tables) && OwnSlots(s.tables, seen, pages)
    requires (forall p :: p in pages ==> p in mem) && Alloc(s.tables.free, |pages|).Some?
    ensures SoftCommit(s, seen, mem, pages).Some?
    ensures var u := SoftCommit(s, seen, mem, pages).value.tables;
      Safe(u) && GcPending(u) <==> RecordsWell(s.tables, seen, pages)
  {
    hide Safe, GcPending, OwnSlots, Alloc, SoftCommit, Took, PutsNew, PutMappings, TableInfo;
    hide Replaceable, RecordsWell, SharedIn, GivenUp, Wasted, Overwritten;
    var t := s.tables;
    var taken, f, puts := StaleCommit(s, seen, mem, pages);
    RecordedSlots(t, seen, pages, taken, puts);
    var u := PutMappings(t.(free := f), puts);
    if RecordsWell(t, seen, pages) {
      PublishAnySafe(t, f, taken, puts);
    }
    if Safe(u) && GcPending(u) {
      forall x | x in Overwritten(puts) ensures Replaceable(t, taken, puts, x) {
        PublishAnyNeeds(t, f, taken, puts, x);
      }
    }
  }

  /** Through any mapping, a commit shows exactly what it wrote, whatever it is, and keeps the tables safe
      with no stale entry, exactly when each slot it writes in place is still the page's own and no round's,
      and each slot it records as replaced may be. */
  lemma StaleSafeExact(s: Store, seen: Table, pages: seq<nat>)
    requires Safe(s.tables) && GcPending(s.tables) && Alloc(s.tables.free, |pages|).Some?
    ensures (forall mem: Memory :: (forall p :: p in pages ==> p in mem) ==> Kept(s, seen, mem, pages))
            <==> OwnSlots(s.tables, seen, pages) && RecordsWell(s.tables, seen, pages)
  {
    hide Safe, GcPending, OwnSlots, RecordsWell, Alloc, SoftCommit, Shows;
    StaleShowsExact(s, seen, pages);
    if OwnSlots(s.tables, seen, pages) {
      forall mem: Memory | forall p :: p in pages ==> p in mem
        ensures Kept(s, seen, mem, pages) <==> RecordsWell(s.tables, seen, pages)
      {
        TablesKept(s, seen, mem, pages);
      }
      var mem: Memory := map p | p in pages :: ZERO_PAGE;
      assert Kept(s, seen, mem, pages) <==> RecordsWell(s.tables, seen, pages);
    } else {
      var mem: Memory :| (forall p :: p in pages ==> p in mem) && SoftCommit(s, seen, mem, pages).Some?
        && !Shows(s, mem, pages, SoftCommit(s, seen, mem, pages).value);
      assert !Kept(s, seen, mem, pages);
    }
  }

  /** Recording the slot of a page that keeps it does harm as soon as that record expires: the removal
      that follows frees the slot. */
  lemma WrongRecordHarms(s: Store, seen: Table, mem: Memory, pages: seq<nat>, p: nat, q: nat)
    requires Safe(s.tables) && OwnSlots(s.tables, seen, pages) && Alloc(s.tables.free, |pages|).Some?
    requires forall x :: x in pages ==> x in mem
    requires p in pages && SharedIn(seen, p) && Mapped(s.tables, q, TableInfo(seen, p).1)
    requires !(q in pages && SharedIn(seen, q))
    ensures SoftCommit(s, seen, mem, pages).Some?
    ensures !CleanExpiry(SoftCommit(s, seen, mem, pages).value.tables, s.tables.last + 1)
  {
    hide Safe, OwnSlots, Alloc, SoftCommit, Took, PutsNew, GivenUp, Wasted, TableInfo, SharedIn;
    var t := s.tables;
    var taken, f, puts := StaleCommit(s, seen, mem, pages);
    var u, x := PutMappings(t.(free := f), puts), TableInfo(seen, p).1;
    PutsMapped(t, f, puts, q, x);
    assert x != INVALID_SLOT by { PageInBounds(t, q, x); }
    assert puts[p].1 in Overwritten(puts);
    assert x in Expiring(u, t.last + 1) && InCurrent(u, x);
  }

  lemma PageInBounds(t: Tables, q: nat, x: nat)
    requires Safe(t) && Mapped(t, q, x)
    ensures x < t.nrSlots && x != INVALID_SLOT
  {
    hide Words;
  }

  // ----- when no slot is lost -----

  /** A page moves away from the slot, or its word is taken and given up. */
  ghost predicate Leaves(t: Tables, taken: set<nat>, puts: Puts, x: nat) {
    (exists p :: p in puts && Mapped(t, p, x)) || GivenUp(taken, puts, x)
  }

  /** A slot so left is lost exactly when nothing records it, and no other is. */
  lemma PublishAnyLost(t: Tables, f: FreeList, taken: set<nat>, puts: Puts, x: nat)
    requires Safe(t) && GcPending(t) && Took(t.free, taken, f) && PutsNew(taken, puts)
    ensures var u := PutMappings(t.(free := f), puts);
      IsLost(u, x) && !IsLost(t, x) <==> x !in Overwritten(puts) && Leaves(t, taken, puts, x)
  {
    hide Words, Disjoint, Spread, Safe, PutMappings, PutsNew, GivenUp, IsFree, Took;
    var u := PutMappings(t.(free := f), puts);
    PutMappingsFrame(t.(free := f), puts);
    if IsLost(u, x) && !IsLost(t, x) {
      if IsFree(t, x) {
        FreeOrTaken(t, f, taken, puts, x);
      } else {
        var p :| Mapped(t, p, x);
        PutsMapped(t, f, puts, p, x);
      }
    }
    if p :| p in puts && Mapped(t, p, x) {
      LeavesSlot(t, f, taken, puts, p, x);
    } else if GivenUp(taken, puts, x) {
      GivenUpGone(t, f, taken, puts, x);
    }
  }

  /** A page that moves does not stay at its slot, and no other comes to it. */
  lemma LeavesSlot(t: Tables, f: FreeList, taken: set<nat>, puts: Puts, p: nat, x: nat)
    requires Safe(t) && Took(t.free, taken, f) && PutsNew(taken, puts) && p in puts && Mapped(t, p, x)
    ensures var u := PutMappings(t.(free := f), puts); !InCurrent(u, x) && !IsFree(u, x)
    ensures x < t.nrSlots
  {
    hide Words, Disjoint, Spread;
    assert !IsFree(t, x);
    NotPublished(t, f, taken, puts, x);
  }

  /** Every slot that a page moves away from, or that is taken and given up, is recorded as replaced. */
  ghost predicate RecordsAll(t: Tables, seen: Table, pages: seq<nat>) {
    && (forall p, x :: p in pages && SharedIn(seen, p) && Mapped(t, p, x) ==> Recorded(seen, pages, x))
    && (forall x :: Wasted(t, seen, pages, x) ==> Recorded(seen, pages, x))
  }

  ghost predicate Recorded(seen: Table, pages: seq<nat>, x: nat) {
    exists q :: q in pages && SharedIn(seen, q) && TableInfo(seen, q).1 == x
  }

  lemma RecordedIs(seen: Table, pages: seq<nat>, puts: Puts, x: nat)
    requires forall q :: q in puts <==> q in pages && SharedIn(seen, q)
    requires forall q :: q in puts ==> puts[q].1 == TableInfo(seen, q).1
    requires x != INVALID_SLOT
    ensures Recorded(seen, pages, x) <==> x in Overwritten(puts)
  {
    hide TableInfo, SharedIn;
    if x in Overwritten(puts) {
      var q :| q in puts && puts[q].1 != INVALID_SLOT && puts[q].1 == x;
      assert q in pages && SharedIn(seen, q) && TableInfo(seen, q).1 == x;
    }
    if q :| q in pages && SharedIn(seen, q) && TableInfo(seen, q).1 == x {
      assert q in puts && puts[q].1 == x;
    }
  }

  /** A commit through any mapping loses no slot exactly when it records every slot that one of its pages
      moves away from, or that it takes and gives up. */
  lemma StaleConservesExact(s: Store, seen: Table, mem: Memory, pages: seq<nat>)
    requires Safe(s.tables) && GcPending(s.tables) && OwnSlots(s.tables, seen, pages)
    requires (forall p :: p in pages ==> p in mem) && Alloc(s.tables.free, |pages|).Some?
    ensures SoftCommit(s, seen, mem, pages).Some?
    ensures LostSlots(SoftCommit(s, seen, mem, pages).value.tables) <= LostSlots(s.tables)
            <==> RecordsAll(s.tables, seen, pages)
  {
    hide Safe, GcPending, OwnSlots, Alloc, SoftCommit, Took, PutsNew, PutMappings, TableInfo;
    hide SharedIn, GivenUp, Wasted, Overwritten, IsLost, Mapped, Recorded;
    var t := s.tables;
    var taken, f, puts := StaleCommit(s, seen, mem, pages);
    var u := PutMappings(t.(free := f), puts);
    forall x | Leaves(t, taken, puts, x)
      ensures IsLost(u, x) && !IsLost(t, x) <==> !Recorded(seen, pages, x)
    {
      PublishAnyLost(t, f, taken, puts, x);
      LeftInBounds(t, f, taken, puts, x);
      RecordedIs(seen, pages, puts, x);
    }
    forall x | IsLost(u, x) && !IsLost(t, x) ensures Leaves(t, taken, puts, x) {
      PublishAnyLost(t, f, taken, puts, x);
    }
    assert RecordsAll(t, seen, pages) <==> forall x :: Leaves(t, taken, puts, x) ==> Recorded(seen, pages, x);
  }

  lemma LeftInBounds(t: Tables, f: FreeList, taken: set<nat>, puts: Puts, x: nat)
    requires Safe(t) && Took(t.free, taken, f) && PutsNew(taken, puts) && Leaves(t, taken, puts, x)
    ensures x != INVALID_SLOT
  {
    hide Words, Disjoint, Spread, GivenUp;
    if p :| p in puts && Mapped(t, p, x) {
      PageInBounds(t, p, x);
    } else {
      GivenUpGone(t, f, taken, puts, x);
    }
  }
}

/** The slot tables together with the state file: committing dirty pages and reading versions back. */
module CowStore {
  import opened Basics
  import opened SlotWords
  import opened SortedTables
  import opened FreeLists
  import opened RangeMaps
  import opened SlotTables
  import opened StatePages

  type FileMap = map<nat, Page>
  type Memory = map<nat, Page>

  /** `file` holds the pages written so far by slot; `fileLen` and `written` are byte counts. */
  datatype Store = Store(tables: Tables, file: FileMap, fileLen: nat, written: nat)

  function FreshStore(nrSlots: nat): Store {
    Store(Fresh(nrSlots), map[], INITIAL_FILE_SIZE, INITIAL_WRITTEN_SIZE)
  }

  function ReadSlot(file: FileMap, s: nat): Page {
    if s in file then file[s] else ZERO_PAGE
  }

  /** The contents a table gives to its pages. */
  function View(t: Table, file: FileMap): Memory {
    map p | p in t :: ReadSlot(file, SlotOf(t[p]))
  }

  // ----- commit -----

  /** Grows the file when the coming write would use up its headroom. */
  function GrowFile(s: Store, pages: nat): Store {
    if s.fileLen <= s.written + pages * PAGE_SIZE + GROW_THRESHOLD
    then s.(fileLen := s.fileLen + GROW_SIZE)
    else s
  }

  /** A commit under way: allocated words not used yet, the file, and the mappings to publish. */
  datatype Writing = Writing(pool: seq<nat>, file: FileMap, puts: Puts)

  /** Writes one page, in place when the mapping seen by the writer says its slot is private. */
  function WritePage(seen: Table, mem: Memory, w: Writing, page: nat): Writing
    requires page in mem && w.pool != []
  {
    var (shared, pba) := TableInfo(seen, page);
    if shared then
      Writing(w.pool[1..], w.file[SlotOf(w.pool[0]) := mem[page]], w.puts[page := (w.pool[0], pba)])
    else
      w.(file := w.file[pba := mem[page]])
  }

  function WritePages(seen: Table, mem: Memory, w: Writing, pages: seq<nat>): (r: Writing)
    requires |pages| <= |w.pool| && forall p :: p in pages ==> p in mem
    ensures |w.pool| - |pages| <= |r.pool| <= |w.pool|
  {
    if pages == [] then w else
      var n := |pages| - 1;
      WritePage(seen, mem, WritePages(seen, mem, w, pages[..n]), pages[n])
  }

  /** Commits `pages` of `mem` through the mapping `seen`; None when the free list runs out. */
  function SoftCommit(s: Store, seen: Table, mem: Memory, pages: seq<nat>): Option<Store>
    requires forall p :: p in pages ==> p in mem
  {
    var g := GrowFile(s, |pages|);
    match Alloc(s.tables.free, |pages|)
    case None => None
    case Some((words, left)) =>
      var w := WritePages(seen, mem, Writing(words, s.file, map[]), pages);
      var t := s.tables.(free := PutBack(left, Elems(w.pool)));
      Some(Store(PutMappings(t, w.puts), w.file, g.fileLen, s.written + |w.puts| * PAGE_SIZE))
  }

  // ----- what the writes do -----

  /** The words to write to name distinct slots, none of which the mapping uses, and the mapping
      gives distinct pages distinct slots. */
  ghost predicate Apart(seen: Table, words: seq<nat>) {
    && (forall i, j :: 0 <= i < j < |words| ==> SlotOf(words[i]) != SlotOf(words[j]))
    && (forall i, p :: 0 <= i < |words| && p in seen ==> SlotOf(words[i]) != SlotOf(seen[p]))
    && (forall p, q :: p in seen && q in seen && SlotOf(seen[p]) == SlotOf(seen[q]) ==> p == q)
    && (forall p :: p in seen ==> seen[p] != INVALID_SLOT)
  }

  ghost predicate SharedIn(seen: Table, p: nat) { TableInfo(seen, p).0 }

  function Used(words: seq<nat>, pool: seq<nat>): seq<nat>
    requires |pool| <= |words|
  {
    words[..|words| - |pool|]
  }

  /** The pool is what is left of the allocated words, and each shared page got its own word. */
  ghost predicate PutsWell(seen: Table, words: seq<nat>, pages: seq<nat>, w: Writing) {
    && |w.pool| <= |words| && w.pool == words[|words| - |w.pool|..]
    && (forall p :: p in w.puts <==> p in pages && SharedIn(seen, p))
    && (forall p :: p in w.puts ==> w.puts[p].0 in Used(words, w.pool) && w.puts[p].1 == TableInfo(seen, p).1)
    && (forall p, q :: p in w.puts && q in w.puts && w.puts[p].0 == w.puts[q].0 ==> p == q)
  }

  /** Every page written so far reads back, and no slot changed but theirs. */
  ghost predicate FilesWell(seen: Table, mem: Memory, words: seq<nat>, file: FileMap, pages: seq<nat>, w: Writing)
    requires forall p :: p in pages ==> p in mem
  {
    && (forall p :: p in w.puts ==> p in mem && ReadSlot(w.file, SlotOf(w.puts[p].0)) == mem[p])
    && (forall p :: p in pages && !SharedIn(seen, p) ==> ReadSlot(w.file, TableInfo(seen, p).1) == mem[p])
    && (forall s :: ReadSlot(w.file, s) != ReadSlot(file, s) ==> Target(seen, words, pages, s))
  }

  /** A slot that writing the pages may touch. */
  ghost predicate Target(seen: Table, words: seq<nat>, pages: seq<nat>, s: nat) {
    || (exists i :: 0 <= i < |words| && SlotOf(words[i]) == s)
    || (exists p :: p in pages && !SharedIn(seen, p) && TableInfo(seen, p).1 == s)
  }

  lemma {:induction false} WritePagesPuts(seen: Table, mem: Memory, words: seq<nat>, file: FileMap, pages: seq<nat>)
    requires |pages| <= |words| && (forall p :: p in pages ==> p in mem) && Apart(seen, words)
    ensures PutsWell(seen, words, pages, WritePages(seen, mem, Writing(words, file, map[]), pages))
  {
    if pages != [] {
      var n := |pages| - 1;
      var init, page := pages[..n], pages[n];
      assert pages == init + [page];
      WritePagesPuts(seen, mem, words, file, init);
      var w := WritePages(seen, mem, Writing(words, file, map[]), init);
      WritePagePuts(seen, mem, words, init, w, page);
    }
  }

  lemma WritePagePuts(seen: Table, mem: Memory, words: seq<nat>, init: seq<nat>, w: Writing, page: nat)
    requires page in mem && w.pool != [] && Apart(seen, words) && PutsWell(seen, words, init, w)
    ensures PutsWell(seen, words, init + [page], WritePage(seen, mem, w, page))
  {
    hide Apart, TableInfo;
    if SharedIn(seen, page) {
      var m := |words| - |w.pool|;
      assert w.pool[1..] == words[m + 1..];
      assert Used(words, w.pool[1..]) == Used(words, w.pool) + [words[m]];
      forall p | p in w.puts ensures w.puts[p].0 != words[m] {
        WordUnused(seen, words, m, w.puts[p].0);
      }
    }
  }

  lemma WordUnused(seen: Table, words: seq<nat>, m: nat, x: nat)
    requires Apart(seen, words) && m < |words| && x in words[..m]
    ensures x != words[m]
  {
    var i :| 0 <= i < m && words[i] == x;
  }


  lemma {:induction false} WritePagesFiles(seen: Table, mem: Memory, words: seq<nat>, file: FileMap, pages: seq<nat>)
    requires |pages| <= |words| && (forall p :: p in pages ==> p in mem) && Apart(seen, words)
    ensures FilesWell(seen, mem, words, file, pages, WritePages(seen, mem, Writing(words, file, map[]), pages))
  {
    if pages != [] {
      var n := |pages| - 1;
      var init, page := pages[..n], pages[n];
      assert pages == init + [page];
      WritePagesFiles(seen, mem, words, file, init);
      WritePagesPuts(seen, mem, words, file, init);
      var w := WritePages(seen, mem, Writing(words, file, map[]), init);
      if SharedIn(seen, page) {
        WriteSharedFiles(seen, mem, words, file, init, w, page);
      } else {
        WritePrivateFiles(seen, mem, words, file, init, w, page);
      }
    }
  }

  lemma TargetGrows(seen: Table, words: seq<nat>, init: seq<nat>, page: nat, s: nat)
    requires Target(seen, words, init, s)
    ensures Target(seen, words, init + [page], s)
  {
    if p :| p in init && !SharedIn(seen, p) && TableInfo(seen, p).1 == s {
      assert p in init + [page];
    }
  }

  lemma WriteSharedFiles(
      seen: Table, mem: Memory, words: seq<nat>, file: FileMap, init: seq<nat>, w: Writing, page: nat)
    requires (forall p :: p in init ==> p in mem) && page in mem && w.pool != [] && Apart(seen, words)
    requires PutsWell(seen, words, init, w) && FilesWell(seen, mem, words, file, init, w)
    requires SharedIn(seen, page)
    ensures FilesWell(seen, mem, words, file, init + [page], WritePage(seen, mem, w, page))
  {
    hide Target, TableInfo, Apart, PutsWell, SlotOf;
    var v := WritePage(seen, mem, w, page);
    var word := w.pool[0];
    assert word in words by { PoolWord(seen, words, init, w); }
    forall p | p in w.puts ensures SlotOf(w.puts[p].0) != SlotOf(word) {
      PutApart(seen, words, init, w, p);
    }
    forall p | p in init && !SharedIn(seen, p) ensures SlotOf(word) != TableInfo(seen, p).1 {
      WordApart(seen, words, word, p);
    }
    forall s | ReadSlot(v.file, s) != ReadSlot(file, s) ensures Target(seen, words, init + [page], s) {
      if s == SlotOf(word) {
        var i :| 0 <= i < |words| && words[i] == word;
        TargetWord(seen, words, init + [page], i);
      } else {
        TargetGrows(seen, words, init, page, s);
      }
    }
  }

  lemma PoolWord(seen: Table, words: seq<nat>, init: seq<nat>, w: Writing)
    requires PutsWell(seen, words, init, w) && w.pool != []
    ensures w.pool[0] in words
  {
    assert w.pool[0] == words[|words| - |w.pool|];
  }

  /** A word already used names another slot than the next one. */
  lemma PutApart(seen: Table, words: seq<nat>, init: seq<nat>, w: Writing, p: nat)
    requires PutsWell(seen, words, init, w) && Apart(seen, words) && w.pool != [] && p in w.puts
    ensures SlotOf(w.puts[p].0) != SlotOf(w.pool[0])
  {
    var m := |words| - |w.pool|;
    assert w.pool[0] == words[m];
    var i :| 0 <= i < m && words[i] == w.puts[p].0;
  }

  lemma WordApart(seen: Table, words: seq<nat>, word: nat, p: nat)
    requires Apart(seen, words) && word in words && !SharedIn(seen, p)
    ensures SlotOf(word) != TableInfo(seen, p).1
  {
  }

  lemma TargetWord(seen: Table, words: seq<nat>, pages: seq<nat>, i: nat)
    requires i < |words|
    ensures Target(seen, words, pages, SlotOf(words[i]))
  {
  }

  lemma TargetPage(seen: Table, words: seq<nat>, pages: seq<nat>, p: nat)
    requires p in pages && !SharedIn(seen, p)
    ensures Target(seen, words, pages, TableInfo(seen, p).1)
  {
  }

  lemma WritePrivateFiles(
      seen: Table, mem: Memory, words: seq<nat>, file: FileMap, init: seq<nat>, w: Writing, page: nat)
    requires (forall p :: p in init ==> p in mem) && page in mem && w.pool != [] && Apart(seen, words)
    requires PutsWell(seen, words, init, w) && FilesWell(seen, mem, words, file, init, w)
    requires !SharedIn(seen, page)
    ensures FilesWell(seen, mem, words, file, init + [page], WritePage(seen, mem, w, page))
  {
    hide Target;
    var v := WritePage(seen, mem, w, page);
    var pba := TableInfo(seen, page).1;
    assert pba == SlotOf(seen[page]);
    forall p | p in w.puts ensures SlotOf(w.puts[p].0) != pba {
      var i :| 0 <= i < |words| - |w.pool| && words[i] == w.puts[p].0;
    }
    forall s | ReadSlot(v.file, s) != ReadSlot(file, s) ensures Target(seen, words, init + [page], s) {
      if s == pba {
        TargetPage(seen, words, init + [page], page);
      } else {
        TargetGrows(seen, words, init, page, s);
      }
    }
  }

  // ----- a commit through a fresh mapping -----

  /** Words just allocated name distinct slots that no page uses. */
  lemma AllocatedApart(t: Tables, words: seq<nat>)
    requires Safe(t) && Ascending(words) && Elems(words) <= Words(t.free)
    ensures Apart(t.current, words)
  {
    hide Words, Disjoint, Spread;
    forall i, j | 0 <= i < j < |words| ensures SlotOf(words[i]) != SlotOf(words[j]) {
      assert words[i] in Elems(words) && words[j] in Elems(words);
      if SlotOf(words[i]) == SlotOf(words[j]) { TakenDistinct(t, words[i], words[j]); }
    }
    forall i, p | 0 <= i < |words| && p in t.current ensures SlotOf(words[i]) != SlotOf(t.current[p]) {
      assert words[i] in Elems(words);
      TakenUnused(t, words[i]);
      assert Mapped(t, p, SlotOf(t.current[p]));
    }
    forall p, q | p in t.current && q in t.current && SlotOf(t.current[p]) == SlotOf(t.current[q]) ensures p == q {
      assert Mapped(t, p, SlotOf(t.current[p])) && Mapped(t, q, SlotOf(t.current[p]));
    }
  }

  /** Slots a completed round uses are no target of a commit: not even of its in-place writes. */
  lemma RoundsUntouched(t: Tables, words: seq<nat>, pages: seq<nat>, r: nat, p: nat)
    requires Safe(t) && Ascending(words) && Elems(words) <= Words(t.free)
    requires r in t.rounds && p in t.rounds[r]
    ensures !Target(t.current, words, pages, SlotOf(t.rounds[r][p]))
  {
    hide Words, Disjoint, Spread;
    var s := SlotOf(t.rounds[r][p]);
    assert InRound(t, r, p, t.rounds[r][p]);
    forall i | 0 <= i < |words| ensures SlotOf(words[i]) != s {
      assert words[i] in Elems(words);
      TakenUnused(t, words[i]);
    }
    forall q | q in pages && !SharedIn(t.current, q) ensures TableInfo(t.current, q).1 != s {
      assert Mapped(t, q, SlotOf(t.current[q]));
    }
  }

  /** The state of a commit after its first k pages: the words allocated, what is left of the free
      list, and the writes so far. */
  ghost predicate AtPoint(s: Store, mem: Memory, pages: seq<nat>, k: nat, words: seq<nat>, left: FreeList, w: Writing) {
    && k <= |pages| && (forall p :: p in pages ==> p in mem)
    && Alloc(s.tables.free, |pages|) == Some((words, left))
    && w == WritePages(s.tables.current, mem, Writing(words, s.file, map[]), pages[..k])
  }

  lemma PointFacts(s: Store, mem: Memory, pages: seq<nat>, k: nat, words: seq<nat>, left: FreeList, w: Writing)
    requires Safe(s.tables) && AtPoint(s, mem, pages, k, words, left, w)
    ensures Disjoint(left) && TakesSmallest(Words(s.tables.free), words, Words(left))
    ensures Apart(s.tables.current, words)
    ensures PutsWell(s.tables.current, words, pages[..k], w)
    ensures FilesWell(s.tables.current, mem, words, s.file, pages[..k], w)
  {
    hide Words, Spread;
    AllocTakesSmallest(s.tables.free, |pages|);
    AllocatedApart(s.tables, words);
    WritePagesPuts(s.tables.current, mem, words, s.file, pages[..k]);
    WritePagesFiles(s.tables.current, mem, words, s.file, pages[..k]);
  }

  /** The pages written at this point. */
  ghost function WrittenPages(
      s: Store, mem: Memory, pages: seq<nat>, k: nat, words: seq<nat>, left: FreeList, w: Writing): seq<nat>
    requires AtPoint(s, mem, pages, k, words, left, w)
  {
    pages[..k]
  }

  /** At every point of a commit every completed round reads back as before. */
  lemma CommitKeepsRounds(s: Store, mem: Memory, pages: seq<nat>, k: nat, words: seq<nat>, left: FreeList, w: Writing)
    requires Safe(s.tables) && AtPoint(s, mem, pages, k, words, left, w)
    ensures forall r :: r in s.tables.rounds ==> View(s.tables.rounds[r], w.file) == View(s.tables.rounds[r], s.file)
  {
    hide Safe, Target, AtPoint, Apart, Words;
    PointFacts(s, mem, pages, k, words, left, w);
    var done := WrittenPages(s, mem, pages, k, words, left, w);
    forall r, p | r in s.tables.rounds && p in s.tables.rounds[r]
      ensures ReadSlot(w.file, SlotOf(s.tables.rounds[r][p])) == ReadSlot(s.file, SlotOf(s.tables.rounds[r][p]))
    {
      RoundsUntouched(s.tables, words, done, r, p);
    }
  }

  /** At every point of a commit a mapped page reads as before, unless it was written in place. */
  lemma CommitCurrent(
      s: Store, mem: Memory, pages: seq<nat>, k: nat, words: seq<nat>, left: FreeList, w: Writing, p: nat)
    requires Safe(s.tables) && AtPoint(s, mem, pages, k, words, left, w) && p in s.tables.current
    ensures ReadSlot(w.file, SlotOf(s.tables.current[p])) ==
      if p in pages[..k] && !SharedIn(s.tables.current, p) then mem[p]
      else ReadSlot(s.file, SlotOf(s.tables.current[p]))
  {
    hide Safe, AtPoint, Words;
    PointFacts(s, mem, pages, k, words, left, w);
    var seen, done := s.tables.current, WrittenPages(s, mem, pages, k, words, left, w);
    if p !in done || SharedIn(seen, p) {
      assert !Target(seen, words, done, SlotOf(seen[p])) by {
        forall q | q in done && !SharedIn(seen, q) ensures TableInfo(seen, q).1 != SlotOf(seen[p]) {
          assert TableInfo(seen, q).1 == SlotOf(seen[q]);
        }
      }
    }
  }

  // ----- the free list during and after a commit -----

  lemma TookAll(t: Tables, words: seq<nat>, left: FreeList, count: nat)
    requires Safe(t) && Alloc(t.free, count) == Some((words, left))
    ensures Took(t.free, Elems(words), left)
  {
    hide Words, Spread;
    AllocTakesSmallest(t.free, count);
    forall x: nat | Spread(left, x) ensures Spread(t.free, x) {
      AllocSpread(t.free, count, x);
    }
  }

  lemma UsedAndPool(words: seq<nat>, pool: seq<nat>)
    requires Ascending(words) && |pool| <= |words| && pool == words[|words| - |pool|..]
    ensures Elems(Used(words, pool)) !! Elems(pool)
    ensures Elems(words) == Elems(Used(words, pool)) + Elems(pool)
  {
    var n := |words| - |pool|;
    assert words == words[..n] + pool;
    assert forall i :: 0 <= i < |pool| ==> pool[i] == words[n + i];
  }

  lemma TookUsed(t: Tables, words: seq<nat>, left: FreeList, pool: seq<nat>)
    requires Safe(t) && Took(t.free, Elems(words), left) && Ascending(words)
    requires |pool| <= |words| && pool == words[|words| - |pool|..]
    ensures Took(t.free, Elems(Used(words, pool)), PutBack(left, Elems(pool)))
  {
    hide Words, Spread, Safe;
    UsedAndPool(words, pool);
    var back := Elems(pool);
    forall x | x in back ensures x !in Words(left) && !Spread(left, x) {
      assert x in Elems(words);
      SpreadIsWord(left, x);
    }
    PutBackAgain(left, back);
  }

  lemma TookSafe(t: Tables, taken: set<nat>, f: FreeList)
    requires Safe(t) && Took(t.free, taken, f)
    ensures Safe(t.(free := f))
  {
    hide Words, Disjoint, Spread, Safe;
    PublishSafe(t, f, taken, map[]);
    assert PutMappings(t.(free := f), map[]) == t.(free := f);
  }

  /** At every point of a commit, before and after the unused words are returned, the tables are
      safe: no slot is both free and mapped by a page or by a round. */
  lemma CommitPointSafe(s: Store, mem: Memory, pages: seq<nat>, k: nat, words: seq<nat>, left: FreeList, w: Writing)
    requires Safe(s.tables) && AtPoint(s, mem, pages, k, words, left, w)
    ensures Safe(s.tables.(free := left))
    ensures Took(s.tables.free, Elems(Used(words, w.pool)), PutBack(left, Elems(w.pool)))
    ensures Safe(s.tables.(free := PutBack(left, Elems(w.pool))))
  {
    hide Words, Disjoint, Spread, Safe, Took, FilesWell, Apart, TakesSmallest, Alloc, WritePages, PutBack, Elems;
    PointFacts(s, mem, pages, k, words, left, w);
    TookAll(s.tables, words, left, |pages|);
    TookSafe(s.tables, Elems(words), left);
    SafeDisjoint(s.tables);
    AllocAscending(s.tables.free, words, left, |pages|);
    TookUsed(s.tables, words, left, w.pool);
    TookSafe(s.tables, Elems(Used(words, w.pool)), PutBack(left, Elems(w.pool)));
  }

  lemma AllocAscending(f: FreeList, words: seq<nat>, left: FreeList, count: nat)
    requires Disjoint(f) && Alloc(f, count) == Some((words, left))
    ensures Ascending(words)
  {
    hide Words, Disjoint;
    AllocTakesSmallest(f, count);
  }

  // ----- the commit as one step -----

  /** The mappings a finished commit publishes fit the tables it publishes them to. */
  lemma CommitFits(s: Store, mem: Memory, pages: seq<nat>, words: seq<nat>, left: FreeList, w: Writing)
    requires Safe(s.tables) && AtPoint(s, mem, pages, |pages|, words, left, w)
    ensures |w.pool| <= |words| && PutsFit(s.tables, Elems(Used(words, w.pool)), w.puts)
  {
    hide Words, Disjoint, Spread, Safe, FilesWell, Apart, AtPoint;
    PointFacts(s, mem, pages, |pages|, words, left, w);
  }

  /** What a page reads as once the commit is published. */
  lemma CommitReads(s: Store, mem: Memory, pages: seq<nat>, words: seq<nat>, left: FreeList, w: Writing, p: nat)
    requires Safe(s.tables) && AtPoint(s, mem, pages, |pages|, words, left, w)
    requires p in s.tables.current || p in w.puts
    ensures p in pages ==> p in mem
    ensures p in pages || p in s.tables.current
    ensures
      var word := if p in w.puts then w.puts[p].0 else s.tables.current[p];
      ReadSlot(w.file, SlotOf(word)) ==
      if p in pages then mem[p] else ReadSlot(s.file, SlotOf(s.tables.current[p]))
  {
    hide Words, Disjoint, Spread, Safe, Apart, Alloc, WritePages, Target, TakesSmallest;
    PointFacts(s, mem, pages, |pages|, words, left, w);
    assert pages[..|pages|] == pages;
    if p !in w.puts { CommitCurrent(s, mem, pages, |pages|, words, left, w, p); }
  }

  lemma CommitDomain(s: Store, mem: Memory, pages: seq<nat>, words: seq<nat>, left: FreeList, w: Writing)
    requires Safe(s.tables) && AtPoint(s, mem, pages, |pages|, words, left, w)
    ensures forall p :: p in s.tables.current || p in w.puts <==> p in s.tables.current || p in pages
  {
    hide Words, Disjoint, Spread, Safe, Apart, Alloc, WritePages, Target, TakesSmallest, FilesWell;
    PointFacts(s, mem, pages, |pages|, words, left, w);
    assert pages[..|pages|] == pages;
  }

  lemma ViewOfPuts(t: Tables, puts: Puts, file: FileMap, after: FileMap, change: Memory)
    requires forall p :: p in t.current || p in puts <==> p in t.current || p in change
    requires forall p :: p in puts ==> p in change && ReadSlot(after, SlotOf(puts[p].0)) == change[p]
    requires forall p :: p in t.current && p !in puts ==>
      ReadSlot(after, SlotOf(t.current[p])) == Changed(change, p, ReadSlot(file, SlotOf(t.current[p])))
    ensures View(PutMappings(t, puts).current, after) == View(t.current, file) + change
  {
    var a, b := View(PutMappings(t, puts).current, after), View(t.current, file) + change;
    forall p ensures p in a <==> p in b {
      ViewDomain(t, puts, after, p);
    }
    forall p | p in a ensures a[p] == b[p] {
      ViewDomain(t, puts, after, p);
    }
    assert a.Keys == b.Keys;
  }

  function Changed(change: Memory, p: nat, was: Page): Page {
    if p in change then change[p] else was
  }

  lemma ViewDomain(t: Tables, puts: Puts, after: FileMap, p: nat)
    ensures var a := View(PutMappings(t, puts).current, after);
      && (p in a <==> p in t.current || p in puts)
      && (p in a ==> a[p] == ReadSlot(after, SlotOf(if p in puts then puts[p].0 else t.current[p])))
  {
  }

  lemma CommitView(s: Store, mem: Memory, pages: seq<nat>, words: seq<nat>, left: FreeList, w: Writing)
    requires Safe(s.tables) && AtPoint(s, mem, pages, |pages|, words, left, w)
    ensures (forall p :: p in pages ==> p in mem)
    ensures View(PutMappings(s.tables, w.puts).current, w.file) ==
      View(s.tables.current, s.file) + (map p | p in pages :: mem[p])
  {
    hide Safe, Alloc, WritePages, ReadSlot, View, PutMappings;
    CommitDomain(s, mem, pages, words, left, w);
    var change: Memory := map p | p in pages :: mem[p];
    forall p | p in s.tables.current || p in w.puts
      ensures p in w.puts ==> p in change && ReadSlot(w.file, SlotOf(w.puts[p].0)) == change[p]
      ensures p !in w.puts ==>
        ReadSlot(w.file, SlotOf(s.tables.current[p])) ==
        Changed(change, p, ReadSlot(s.file, SlotOf(s.tables.current[p])))
    {
      CommitReads(s, mem, pages, words, left, w, p);
      PutsAreCommitted(s, mem, pages, words, left, w);
    }
    ViewOfPuts(s.tables, w.puts, s.file, w.file, change);
  }

  lemma PutsAreCommitted(s: Store, mem: Memory, pages: seq<nat>, words: seq<nat>, left: FreeList, w: Writing)
    requires Safe(s.tables) && AtPoint(s, mem, pages, |pages|, words, left, w)
    ensures forall p :: p in w.puts ==> p in pages
  {
    hide Words, Disjoint, Spread, Safe, Apart, Alloc, WritePages, Target, TakesSmallest, FilesWell;
    PointFacts(s, mem, pages, |pages|, words, left, w);
    assert pages[..|pages|] == pages;
  }

  /** The rest of the store as a commit leaves it. */
  ghost predicate Committed(s: Store, mem: Memory, pages: seq<nat>, u: Store)
    requires forall p :: p in pages ==> p in mem
  {
    && Safe(u.tables)
    && View(u.tables.current, u.file) == View(s.tables.current, s.file) + (map p | p in pages :: mem[p])
    && u.tables.rounds == s.tables.rounds
    && (forall r :: r in s.tables.rounds ==> View(s.tables.rounds[r], u.file) == View(s.tables.rounds[r], s.file))
  }

  /** A commit through a fresh mapping changes exactly the committed pages of the current state and
      nothing of any snapshot; it fails exactly when fewer words are free than pages are given. */
  lemma CommitCorrect(s: Store, mem: Memory, pages: seq<nat>)
    requires Safe(s.tables) && forall p :: p in pages ==> p in mem
    ensures var r := SoftCommit(s, s.tables.current, mem, pages);
      && (r.None? <==> |Words(s.tables.free)| < |pages|)
      && (r.Some? ==> Committed(s, mem, pages, r.value))
  {
    hide Words, Disjoint, Spread, Safe;
    assert Disjoint(s.tables.free) by { SafeDisjoint(s.tables); }
    AllocTakesSmallest(s.tables.free, |pages|);
    var a := Alloc(s.tables.free, |pages|);
    ServedEnough(s.tables.free, |pages|, a);
    if a.Some? {
      var (words, left) := a.value;
      var w := WritePages(s.tables.current, mem, Writing(words, s.file, map[]), pages);
      CommitSome(s, mem, pages, words, left, w);
    }
  }

  lemma SafeDisjoint(t: Tables)
    requires Safe(t)
    ensures Disjoint(t.free)
  {
  }

  lemma CommitSome(s: Store, mem: Memory, pages: seq<nat>, words: seq<nat>, left: FreeList, w: Writing)
    requires Safe(s.tables) && forall p :: p in pages ==> p in mem
    requires Alloc(s.tables.free, |pages|) == Some((words, left))
    requires w == WritePages(s.tables.current, mem, Writing(words, s.file, map[]), pages)
    ensures SoftCommit(s, s.tables.current, mem, pages).Some?
    ensures Committed(s, mem, pages, SoftCommit(s, s.tables.current, mem, pages).value)
  {
    hide Words, Disjoint, Spread, Safe, Alloc, WritePages, Took, PutsFit, PutBack, Elems, View;
    assert pages[..|pages|] == pages;
    assert AtPoint(s, mem, pages, |pages|, words, left, w);
    CommitPointSafe(s, mem, pages, |pages|, words, left, w);
    CommitFits(s, mem, pages, words, left, w);
    PublishSafe(s.tables, PutBack(left, Elems(w.pool)), Elems(Used(words, w.pool)), w.puts);
    CommitView(s, mem, pages, words, left, w);
    CommitKeepsRounds(s, mem, pages, |pages|, words, left, w);
  }
}

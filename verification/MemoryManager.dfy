/** The memory manager and the mapped states it hands out: the objects that hold the mapped region,
    the state file and the slot manager, and change them in place. */
module MemoryManager {
  import opened Basics
  import opened SlotWords
  import opened SortedTables
  import opened FreeLists
  import opened RangeMaps
  import opened SlotTables
  import opened SlotManager
  import opened StatePages
  import opened CowStore
  import opened CowRuns
  import opened CowConservation
  import opened CowCheckpoints
  import opened MappedBytes

  /** The state file: its length, and the pages written to it by slot. */
  class StateFile {
    var pages: FileMap
    var len: nat

    constructor ()
      ensures pages == map[] && len == INITIAL_FILE_SIZE
    {
      pages, len := map[], INITIAL_FILE_SIZE;
    }
  }

  /** The byte count that all mapped states of one manager share. */
  class Written {
    var bytes: nat

    constructor ()
      ensures bytes == INITIAL_WRITTEN_SIZE
    {
      bytes := INITIAL_WRITTEN_SIZE;
    }
  }

  ghost function StoreOf(mgr: SlotMgr, file: StateFile, written: Written): Store
    reads mgr, file, written
  {
    Store(mgr.State(), file.pages, file.len, written.bytes)
  }

  /** Writes one page into the region. */
  method PutPage(mem: array<byte>, p: nat, page: Page)
    requires (p + 1) * PAGE_SIZE <= mem.Length
    modifies mem
    ensures mem[..] == Splice(old(mem[..]), p * PAGE_SIZE, page)
  {
    CopyBytes(mem, p * PAGE_SIZE, page);
  }

  method CopyBytes(mem: array<byte>, at: nat, bytes: seq<byte>)
    requires at + |bytes| <= mem.Length
    modifies mem
    ensures mem[..] == Splice(old(mem[..]), at, bytes)
  {
    for i := 0 to |bytes|
      invariant forall k :: 0 <= k < mem.Length ==>
        mem[k] == if at <= k < at + i then bytes[k - at] else old(mem[k])
    {
      mem[at + i] := bytes[i];
    }
    assert |Splice(old(mem[..]), at, bytes)| == mem.Length;
  }

  lemma SplicePage(m: Memory, p: nat, page: Page)
    requires p < MAPPED_PAGES
    ensures Splice(BytesOf(m), p * PAGE_SIZE, page) == BytesOf(m[p := page])
  {
    var s := Splice(BytesOf(m), p * PAGE_SIZE, page);
    forall q: nat | q < MAPPED_PAGES ensures PageAt(s, q) == ReadPage(m[p := page], q) {
      if q == p {
        assert PageAt(s, q) == page;
      } else {
        UntouchedPage(BytesOf(m), p * PAGE_SIZE, page, q);
        PageOfBytes(m, q);
      }
    }
    BytesFromPages(s, m[p := page]);
  }

  /** The table can be mapped: its words are slots and its pages lie in the region. */
  ghost predicate Mappable(t: Table) {
    Proper(t) && INVALID_SLOT !in t && forall p :: p in t ==> p < MAPPED_PAGES
  }

  lemma ZeroRegion(s: seq<byte>)
    requires |s| == MAPPED_BYTES && forall i :: 0 <= i < MAPPED_BYTES ==> s[i] == 0
    ensures s == BytesOf(map[])
  {
  }

  /** Page number k of a range is stored k slots after the range's first. */
  lemma RangeReads(rs: seq<Range>, t: Table, i: nat, k: nat)
    requires Canonical(rs, t) && Proper(t) && i < |rs| && k < rs[i].len
    ensures rs[i].physical < WORDS && rs[i].logical + k in t
    ensures SlotOf(t[rs[i].logical + k]) == SlotOf(rs[i].physical) + k
  {
    assert At(rs, i, rs[i].logical) && At(rs, i, rs[i].logical + k);
    RangesDoNotMix(rs, t, i, rs[i].logical, rs[i].logical + k);
  }

  /** Maps a version: an empty region with the file's pages laid over it, range by range. */
  method Overlay(rs: seq<Range>, ghost t: Table, file: FileMap) returns (mem: array<byte>)
    requires Canonical(rs, t) && Mappable(t)
    ensures fresh(mem) && mem.Length == MAPPED_BYTES
    ensures mem[..] == BytesOf(View(t, file))
  {
    hide BytesOf, Canonical, PageAt;
    mem := new byte[MAPPED_BYTES](i => 0);
    ZeroRegion(mem[..]);
    ghost var done: Memory := map[];
    for i := 0 to |rs|
      invariant mem[..] == BytesOf(done)
      invariant forall p :: p in done ==> p in t && done[p] == ReadSlot(file, SlotOf(t[p]))
      invariant forall j, p :: 0 <= j < i && At(rs, j, p) ==> p in done
    {
      for k := 0 to rs[i].len
        invariant mem[..] == BytesOf(done)
        invariant forall p :: p in done ==> p in t && done[p] == ReadSlot(file, SlotOf(t[p]))
        invariant forall j, p :: 0 <= j < i && At(rs, j, p) ==> p in done
        invariant forall p :: rs[i].logical <= p < rs[i].logical + k ==> p in done
      {
        RangeReads(rs, t, i, k);
        var p := rs[i].logical + k;
        var page := ReadSlot(file, SlotOf(rs[i].physical) + k);
        SplicePage(done, p, page);
        PutPage(mem, p, page);
        done := done[p := page];
      }
    }
    AllOverlaid(rs, t, file, done);
  }

  lemma AllOverlaid(rs: seq<Range>, t: Table, file: FileMap, done: Memory)
    requires Canonical(rs, t)
    requires forall p :: p in done ==> p in t && done[p] == ReadSlot(file, SlotOf(t[p]))
    requires forall j, p :: 0 <= j < |rs| && At(rs, j, p) ==> p in done
    ensures done == View(t, file)
  {
    forall p | p in t ensures p in done {
      var j :| At(rs, j, p);
    }
  }

  /** In 64-bit arithmetic a word's offset in the file does not depend on its tag. */
  lemma OffsetIgnoresTag(w: Word)
    ensures ((w + META_LEN) * PAGE_SIZE) % WORDS == ((SlotOf(w) + META_LEN) * PAGE_SIZE) % WORDS
  {
    if w >= TAG {
      assert (w + META_LEN) * PAGE_SIZE == (SlotOf(w) + META_LEN) * PAGE_SIZE + 2048 * WORDS;
    }
  }

  /** A version of the state mapped into memory. `seen` is the table the mapping was made from. */
  class MappedState {
    const mgr: SlotMgr
    const file: StateFile
    const written: Written
    const mappings: seq<Range>
    ghost const seen: Table
    const mem: array<byte>

    ghost predicate Valid() {
      Canonical(mappings, seen) && mem.Length == MAPPED_BYTES
    }

    ghost function Backing(): Store
      reads mgr, file, written
    {
      StoreOf(mgr, file, written)
    }

    constructor (
        mgr: SlotMgr, file: StateFile, written: Written, mappings: seq<Range>, ghost seen: Table, mem: array<byte>)
      requires Canonical(mappings, seen) && mem.Length == MAPPED_BYTES
      ensures Valid() && this.mgr == mgr && this.file == file && this.written == written
      ensures this.seen == seen && this.mem == mem
    {
      this.mgr, this.file, this.written := mgr, file, written;
      this.mappings, this.seen, this.mem := mappings, seen, mem;
    }

    /** Writes the given pages of the region to the file and publishes where they are; false when
        there are not enough free slots, in which case only the file may have grown. */
    method CommitPages(pages: seq<nat>) returns (ok: bool)
      requires Valid() && forall p :: p in pages ==> p < MAPPED_PAGES
      modifies mgr, file, written
      ensures match SoftCommit(old(Backing()), seen, PagesOf(mem[..]), pages)
        case None => !ok && Backing() == GrowFile(old(Backing()), |pages|)
        case Some(u) => ok && Backing() == u
    {
      hide SortedDisjoint, Expands, Maximal, Alloc, WritePages, PageAt, PutMappings, PutBack;
      if file.len <= written.bytes + |pages| * PAGE_SIZE + GROW_THRESHOLD {
        file.len := file.len + GROW_SIZE;
      }
      var slots := mgr.AllocFreeSlots(|pages|);
      if slots.None? {
        return false;
      }
      var unused, puts := WriteOut(pages, slots.value);
      mgr.FreeUnusedSlots(unused);
      written.bytes := written.bytes + |puts| * PAGE_SIZE;
      mgr.PutAllMappings(puts);
      return true;
    }

    /** Writes the pages out: in place where the mapping says the slot is private, and otherwise to
        the next of the allocated slots. */
    method WriteOut(pages: seq<nat>, slots: seq<nat>) returns (pool: seq<nat>, puts: Puts)
      requires Valid() && |slots| == |pages| && forall p :: p in pages ==> p < MAPPED_PAGES
      modifies file`pages
      ensures Writing(pool, file.pages, puts) ==
              WritePages(seen, PagesOf(mem[..]), Writing(slots, old(file.pages), map[]), pages)
    {
      hide SortedDisjoint, Expands, Maximal, WritePages, PageAt, PagesOf;
      ghost var contents := PagesOf(mem[..]);
      ghost var start := Writing(slots, file.pages, map[]);
      pool, puts := slots, map[];
      WritesNothing(seen, contents, start);
      for k := 0 to |pages|
        invariant |pages| - k <= |pool|
        invariant forall p :: p in pages[..k] ==> p in contents
        invariant Writing(pool, file.pages, puts) == WritePages(seen, contents, start, pages[..k])
      {
        var page := pages[k];
        assert page in pages && pages[..k + 1] == pages[..k] + [page];
        var shared, pba := GetSlotInfo(mappings, page, seen);
        var slot := if shared then pool[0] else pba;
        WritesOneMore(seen, contents, start, pages, k);
        PageBytes(mem[..], page);
        file.pages := file.pages[SlotOf(slot) := mem[page * PAGE_SIZE..(page + 1) * PAGE_SIZE]];
        if shared {
          puts := puts[page := (slot, pba)];
          pool := pool[1..];
        }
      }
      assert pages[..|pages|] == pages;
    }
  
    /** Commits heap pages. */
    method CommitHeap(pages: seq<nat>) returns (ok: bool)
      requires Valid() && forall p :: p in pages ==> p < HEAP_LEN
      modifies mgr, file, written
      ensures match SoftCommit(old(Backing()), seen, PagesOf(mem[..]), Shift(pages))
        case None => !ok && Backing() == GrowFile(old(Backing()), |pages|)
        case Some(u) => ok && Backing() == u
    {
      hide SoftCommit, PagesOf;
      ok := CommitPages(Shift(pages));
    }

    /** Copies bytes into the heap and returns the heap pages to commit. */
    method CopyToHeap(offset: nat, bytes: seq<byte>) returns (pages: seq<nat>)
      requires Valid() && HEAP_BASE + offset + |bytes| <= MAPPED_BYTES
      modifies mem
      ensures mem[..] == Splice(old(mem[..]), HEAP_BASE + offset, bytes)
      ensures pages == TouchedPages(offset, |bytes|)
      ensures Ascending(pages) && |pages| == PageCount(offset, |bytes|)
      ensures forall p :: p in pages ==> p < HEAP_LEN
    {
      hide Canonical, TouchedPages, Splice;
      TouchedRange(offset, |bytes|);
      TouchedOnce(offset, |bytes|);
      CopyBytes(mem, HEAP_BASE + offset, bytes);
      pages := TouchedPages(offset, |bytes|);
    }

    /** The heap bytes at the given offset. */
    method CopyFromHeap(offset: nat, len: nat) returns (bytes: seq<byte>)
      requires Valid() && HEAP_BASE + offset + len <= MAPPED_BYTES
      ensures |bytes| == len && forall i :: 0 <= i < len ==> bytes[i] == mem[HEAP_BASE + offset + i]
    {
      hide Canonical;
      bytes := mem[HEAP_BASE + offset..HEAP_BASE + offset + len];
    }

    /** Replaces the front of the globals page and commits the page; false, with nothing changed,
        when the globals do not fit, and false also when the commit fails. */
    method UpdateGlobals(bytes: seq<byte>) returns (ok: bool)
      requires Valid()
      modifies mem, mgr, file, written
      ensures |bytes| > GLOBALS_LEN * PAGE_SIZE ==> !ok && mem[..] == old(mem[..]) && Backing() == old(Backing())
      ensures |bytes| <= GLOBALS_LEN * PAGE_SIZE ==>
        mem[..] == Splice(old(mem[..]), GLOBALS_OFFSET * PAGE_SIZE, bytes)
        && match SoftCommit(old(Backing()), seen, PagesOf(mem[..]), [GLOBALS_OFFSET])
           case None => !ok && Backing() == GrowFile(old(Backing()), 1)
           case Some(u) => ok && Backing() == u
    {
      hide Canonical, SoftCommit, Splice, PagesOf;
      if |bytes| > GLOBALS_LEN * PAGE_SIZE {
        return false;
      }
      CopyBytes(mem, GLOBALS_OFFSET * PAGE_SIZE, bytes);
      ok := CommitPages([GLOBALS_OFFSET]);
    }
  }

  /** The manager: hands out mapped states and ends, removes and clears rounds. */
  class CowMemoryManager {
    const mgr: SlotMgr
    const file: StateFile
    const written: Written

    ghost function Backing(): Store
      reads mgr, file, written
    {
      StoreOf(mgr, file, written)
    }

    /** The tables are safe and every page they map lies in the region. */
    ghost predicate Valid()
      reads mgr
    {
      Safe(mgr.State()) && InRegion(mgr.State())
    }

    constructor (slots: nat)
      requires 0 < slots <= SLOT_BOUND
      ensures Valid() && Backing() == FreshStore(slots)
      ensures fresh(mgr) && fresh(file) && fresh(written)
    {
      mgr := new SlotMgr(slots);
      file := new StateFile();
      written := new Written();
      new;
      FreshSafe(slots);
    }

    /** Another manager on the store in use; it counts the bytes written from the start. */
    constructor Attach(other: CowMemoryManager)
      requires other.Valid()
      ensures mgr == other.mgr && file == other.file && fresh(written)
      ensures Valid() && Backing() == Apply(other.Backing(), Attached)
    {
      mgr, file := other.mgr, other.file;
      written := new Written();
    }

    /** A manager in a new process: the slot manager starts from the checkpointed round. Safe exactly when
        no later round shares a slot with the current table. */
    constructor Reopen(other: CowMemoryManager)
      requires other.Valid()
      modifies other.mgr
      ensures mgr == other.mgr && file == other.file && fresh(written)
      ensures Backing() == Apply(old(other.Backing()), Reopened)
      ensures Valid() <==> NoneLater(old(other.mgr.State()), old(other.mgr.checkpointed))
    {
      mgr, file := other.mgr, other.file;
      written := new Written();
      new;
      hide Safe, NoneLater, InRegion;
      ReopenExact(mgr.State());
      RegionOther(mgr.State(), SlotTables.Reopen(mgr.State()));
      mgr.Recover();
    }

    /** A map of the current state: it reads as the current table says, and commits through it are
        commits through a fresh mapping until the next commit or snapshot. */
    method GetMap() returns (m: MappedState)
      requires Valid()
      ensures fresh(m) && m.Valid() && fresh(m.mem)
      ensures m.mgr == mgr && m.file == file && m.written == written
      ensures m.seen == mgr.current
      ensures m.mem[..] == BytesOf(View(mgr.current, file.pages))
    {
      hide Safe, Canonical, BytesOf, View;
      SafeMappable(mgr.State());
      var rs := mgr.GetCurrentRoundMappings();
      var mem := Overlay(rs, mgr.current, file.pages);
      m := new MappedState(mgr, file, written, rs, mgr.current, mem);
    }

    /** A map of the given round if it is at most the newest one, and of the current state otherwise;
        None when the round is gone. */
    method GetMapForSnapshot(round: nat) returns (m: Option<MappedState>)
      requires Valid()
      ensures m.None? <==> round !in mgr.rounds && exists r :: r in mgr.rounds && round <= r
      ensures m.Some? ==> fresh(m.value) && m.value.Valid() && fresh(m.value.mem)
      ensures m.Some? && round in mgr.rounds ==> m.value.mem[..] == BytesOf(View(mgr.rounds[round], file.pages))
      ensures m.Some? && round !in mgr.rounds ==> m.value.mem[..] == BytesOf(View(mgr.current, file.pages))
    {
      hide Safe, Canonical, BytesOf, View;
      SafeMappable(mgr.State());
      var completed := mgr.GetCompletedRounds();
      var n := |completed|;
      if n > 0 && round <= completed[n - 1] {
        assert completed[n - 1] in completed;
        var found := mgr.GetMappingsForRound(round);
        if found.None? {
          return None;
        }
        var mem := Overlay(found.value, mgr.rounds[round], file.pages);
        var s := new MappedState(mgr, file, written, found.value, mgr.rounds[round], mem);
        return Some(s);
      }
      forall r | r in mgr.rounds ensures r < round {
        var i :| 0 <= i < n && completed[i] == r;
      }
      var rs := mgr.GetCurrentRoundMappings();
      var mem := Overlay(rs, mgr.current, file.pages);
      var s := new MappedState(mgr, file, written, rs, mgr.current, mem);
      return Some(s);
    }

    /** Safe exactly when no later round shares a slot with the current table. */
    method CreateSnapshot(round: nat)
      requires Valid()
      modifies mgr
      ensures Backing() == Apply(old(Backing()), Snapshot(round))
      ensures Valid() <==> NoneLater(old(mgr.State()), round)
    {
      hide Safe, EndRound, InRegion, NoneLater;
      EndRoundExact(mgr.State(), round);
      RegionRound(mgr.State(), round);
      mgr.EndOfRound(round);
    }

    /** Reopening right afterwards is legal. */
    method MakeCheckpoint()
      requires Valid()
      modifies mgr, written
      ensures Valid() && Backing() == Apply(old(Backing()), Checkpointed)
      ensures Legal(Backing(), Step.Reopened) && mgr.checkpointed == mgr.last == old(mgr.last)
    {
      CheckpointThenReopen(Backing());
      hide InRegion;
      BookkeepingExact(Backing(), Checkpointed);
      hide Safe;
      RegionOther(mgr.State(), Checkpoint(mgr.State()));
      mgr.TakeCheckpoint();
      written.bytes := INITIAL_WRITTEN_SIZE;
    }

    /** Safe exactly when no slot it frees is still in use. */
    method RemoveStatesBelow(round: nat)
      requires Valid()
      modifies mgr
      ensures Backing() == Apply(old(Backing()), Remove(round))
      ensures Valid() <==> CleanExpiry(old(mgr.State()), round)
    {
      hide Safe, RemoveBelow, CleanExpiry, InRegion;
      RemoveBelowExact(mgr.State(), round);
      RegionRemove(mgr.State(), round);
      mgr.RemoveRoundsBelow(round);
    }

    /** Safe exactly when every gc entry is exact. */
    method Upgrade()
      requires Valid()
      modifies mgr
      ensures Backing() == Apply(old(Backing()), Step.Clear)
      ensures Valid() <==> GcExact(old(mgr.State()))
    {
      hide Safe, ClearCurrent, InRegion, GcExact;
      ClearCurrentExact(mgr.State());
      RegionClear(mgr.State());
      mgr.Clear();
    }

    /** Writes bytes to the heap of the current state, as an execution does: through a map of its own,
        which it commits. A map made afterwards shows exactly those bytes changed. */
    method WriteHeap(offset: nat, bytes: seq<byte>) returns (ok: bool, m: MappedState)
      requires Valid() && HEAP_BASE + offset + |bytes| <= MAPPED_BYTES
      modifies mgr, file, written
      ensures Valid() && m.Valid() && fresh(m) && fresh(m.mem)
      ensures ok <==> PageCount(offset, |bytes|) <= |Words(old(mgr.free))|
      ensures var before := BytesOf(View(old(mgr.current), old(file.pages)));
        m.mem[..] == if ok then Splice(before, HEAP_BASE + offset, bytes) else before
      ensures file.len == GrowFile(old(Backing()), PageCount(offset, |bytes|)).fileLen
      ensures LostSlots(mgr.State()) == LostSlots(old(mgr.State()))
      ensures mgr.rounds == old(mgr.rounds)
      ensures forall r :: r in mgr.rounds ==> View(mgr.rounds[r], file.pages) == View(mgr.rounds[r], old(file.pages))
    {
      hide Safe, SoftCommit, InRegion, BytesOf, View, Splice, TouchedPages, Words, PagesOf, IsLost;
      ghost var s := Backing();
      m := GetMap();
      var pages := m.CopyToHeap(offset, bytes);
      TouchedOnce(offset, |bytes|);
      HeapWriteRoundTrip(s, offset, bytes);
      CommitCorrect(s, PagesOf(m.mem[..]), Shift(pages));
      ok := m.CommitHeap(pages);
      if ok {
        HeapWriteConserves(s, PagesOf(m.mem[..]), offset, |bytes|);
        RegionCommit(s, PagesOf(m.mem[..]), Shift(pages));
        CommitLength(s, s.tables.current, PagesOf(m.mem[..]), Shift(pages));
      }
      m := GetMap();
    }
  }

  ghost predicate InRegion(t: Tables) {
    (forall p :: p in t.current ==> p < MAPPED_PAGES)
    && (forall r, p :: r in t.rounds && p in t.rounds[r] ==> p < MAPPED_PAGES)
  }

  lemma SafeMappable(t: Tables)
    requires Safe(t) && InRegion(t)
    ensures Mappable(t.current) && forall r :: r in t.rounds ==> Mappable(t.rounds[r])
  {
    hide Words, Disjoint, Spread;
    forall p | p in t.current ensures SlotOf(t.current[p]) < SLOT_BOUND {
      assert Mapped(t, p, SlotOf(t.current[p]));
    }
    forall r, p | r in t.rounds && p in t.rounds[r] ensures t.rounds[r][p] < SLOT_BOUND {
      assert InRound(t, r, p, t.rounds[r][p]);
    }
  }

  lemma RegionRound(t: Tables, round: nat)
    requires InRegion(t)
    ensures InRegion(EndRound(t, round))
  {
  }

  lemma RegionOther(t: Tables, u: Tables)
    requires InRegion(t) && u.current == t.current && u.rounds == t.rounds
    ensures InRegion(u)
  {
  }

  lemma RegionRemove(t: Tables, bound: nat)
    requires InRegion(t)
    ensures InRegion(RemoveBelow(t, bound))
  {
  }

  lemma RegionClear(t: Tables)
    requires InRegion(t)
    ensures InRegion(ClearCurrent(t))
  {
  }

  lemma CommitLength(s: Store, seen: Table, mem: Memory, pages: seq<nat>)
    requires (forall p :: p in pages ==> p in mem) && SoftCommit(s, seen, mem, pages).Some?
    ensures SoftCommit(s, seen, mem, pages).value.fileLen == GrowFile(s, |pages|).fileLen
  {
  }

  /** A commit of pages of the region maps no other pages. */
  lemma RegionCommit(s: Store, mem: Memory, pages: seq<nat>)
    requires Safe(s.tables) && InRegion(s.tables) && forall p :: p in pages ==> p in mem && p < MAPPED_PAGES
    requires SoftCommit(s, s.tables.current, mem, pages).Some?
    ensures var u := SoftCommit(s, s.tables.current, mem, pages).value;
      Safe(u.tables) && InRegion(u.tables)
  {
    hide Safe, SoftCommit, Words, ReadSlot;
    CommitCorrect(s, mem, pages);
    var u := SoftCommit(s, s.tables.current, mem, pages).value;
    forall p | p in u.tables.current ensures p < MAPPED_PAGES {
      assert p in View(u.tables.current, u.file);
      assert p in View(s.tables.current, s.file) || p in pages;
    }
  }

  lemma WritesNothing(seen: Table, mem: Memory, w: Writing)
    ensures WritePages(seen, mem, w, []) == w
  {
  }

  lemma WritesOneMore(seen: Table, mem: Memory, w: Writing, pages: seq<nat>, k: nat)
    requires k < |pages| <= |w.pool| && forall p :: p in pages ==> p in mem
    ensures WritePages(seen, mem, w, pages[..k + 1]) ==
            WritePage(seen, mem, WritePages(seen, mem, w, pages[..k]), pages[k])
  {
    assert pages[..k + 1][..k] == pages[..k];
  }

  lemma PageBytes(s: seq<byte>, p: nat)
    requires |s| == MAPPED_BYTES && p < MAPPED_PAGES
    ensures p in PagesOf(s) && PagesOf(s)[p] == s[p * PAGE_SIZE..(p + 1) * PAGE_SIZE]
  {
  }
}

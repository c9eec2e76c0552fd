/** Mapped memory as bytes: what a map of a version holds, what writing a range of bytes touches, and
    what committing the touched pages changes. */
module MappedBytes {
  import opened Basics
  import opened SortedTables
  import opened FreeLists
  import opened SlotTables
  import opened StatePages
  import opened CowStore
  import opened CowRuns
  import opened CowConservation

  const MAPPED_BYTES: nat := MAPPED_PAGES * PAGE_SIZE
  const HEAP_BASE: nat := HEAP_OFFSET * PAGE_SIZE

  function Splice(s: seq<byte>, at: nat, x: seq<byte>): (r: seq<byte>)
    requires at + |x| <= |s|
    ensures |r| == |s|
    ensures forall i :: 0 <= i < |s| ==> r[i] == if at <= i < at + |x| then x[i - at] else s[i]
  {
    s[..at] + x + s[at + |x|..]
  }

  function PageAt(s: seq<byte>, p: nat): (r: Page)
    requires (p + 1) * PAGE_SIZE <= |s|
    ensures forall i :: 0 <= i < PAGE_SIZE ==> r[i] == s[p * PAGE_SIZE + i]
  {
    s[p * PAGE_SIZE..(p + 1) * PAGE_SIZE]
  }

  /** The pages of a mapped region. */
  ghost function PagesOf(s: seq<byte>): (m: Memory)
    requires |s| == MAPPED_BYTES
    ensures forall p: nat :: p in m <==> p < MAPPED_PAGES
    ensures forall p: nat :: p < MAPPED_PAGES ==> m[p] == PageAt(s, p)
  {
    map p | p in Below(MAPPED_PAGES) :: PageAt(s, p)
  }

  /** The region a version is mapped to: pages nobody mapped are zero. */
  function BytesOf(m: Memory): (s: seq<byte>)
    ensures |s| == MAPPED_BYTES
    ensures forall i :: 0 <= i < MAPPED_BYTES ==> s[i] == ReadPage(m, i / PAGE_SIZE)[i % PAGE_SIZE]
  {
    seq(MAPPED_BYTES, i requires 0 <= i => ReadPage(m, i / PAGE_SIZE)[i % PAGE_SIZE])
  }

  lemma PageOfBytes(m: Memory, p: nat)
    requires p < MAPPED_PAGES
    ensures PageAt(BytesOf(m), p) == ReadPage(m, p)
  {
    hide ReadPage;
    forall i | 0 <= i < PAGE_SIZE ensures PageAt(BytesOf(m), p)[i] == ReadPage(m, p)[i] {
      assert (p * PAGE_SIZE + i) / PAGE_SIZE == p && (p * PAGE_SIZE + i) % PAGE_SIZE == i;
    }
  }

  /** A region is determined by its pages. */
  lemma BytesFromPages(s: seq<byte>, m: Memory)
    requires |s| == MAPPED_BYTES && forall p: nat :: p < MAPPED_PAGES ==> PageAt(s, p) == ReadPage(m, p)
    ensures s == BytesOf(m)
  {
    hide ReadPage;
    forall i | 0 <= i < MAPPED_BYTES ensures s[i] == BytesOf(m)[i] {
      var p: nat := i / PAGE_SIZE;
      assert p < MAPPED_PAGES && i == p * PAGE_SIZE + i % PAGE_SIZE;
      assert PageAt(s, p)[i % PAGE_SIZE] == s[i];
    }
  }

  // ----- the pages a write touches -----

  /** The heap pages to commit after copying `len` bytes to heap offset `offset`. */
  function TouchedPages(offset: nat, len: nat): seq<nat> {
    var copyBase := HEAP_BASE + offset;
    var alignedBase := copyBase - copyBase % PAGE_SIZE;
    var totalLen := copyBase + len - alignedBase;
    var startPage := (alignedBase - HEAP_BASE) / PAGE_SIZE;
    var nrPages := (totalLen + PAGE_SIZE - 1) / PAGE_SIZE;
    seq(nrPages, k requires 0 <= k => startPage + k)
  }

  /** Some byte of the range lies on the page. */
  ghost predicate Touches(offset: nat, len: nat, p: nat) {
    exists i: nat :: offset <= i < offset + len && OnPage(i, p)
  }

  predicate OnPage(i: nat, p: nat) { i / PAGE_SIZE == p }

  lemma TouchedRange(offset: nat, len: nat)
    ensures var ps := TouchedPages(offset, len);
      forall p: nat :: p in ps <==> offset / PAGE_SIZE <= p && p * PAGE_SIZE < offset + len
  {
    var ps := TouchedPages(offset, len);
    var start: nat := offset / PAGE_SIZE;
    assert HEAP_BASE % PAGE_SIZE == 0;
    assert (HEAP_BASE + offset) % PAGE_SIZE == offset % PAGE_SIZE;
    assert forall k :: 0 <= k < |ps| ==> ps[k] == start + k;
    forall p: nat | start <= p && p * PAGE_SIZE < offset + len ensures p in ps {
      assert ps[p - start] == p;
    }
  }

  /** The pages returned are exactly those the bytes lie on, unless there are no bytes and the offset
      is inside a page: then that page is returned although nothing was written to it. */
  lemma TouchedExactly(offset: nat, len: nat)
    ensures (forall p: nat :: p in TouchedPages(offset, len) <==> Touches(offset, len, p))
            <==> len > 0 || offset % PAGE_SIZE == 0
  {
    TouchedRange(offset, len);
    hide TouchedPages;
    if len > 0 {
      forall p: nat ensures p in TouchedPages(offset, len) <==> Touches(offset, len, p) {
        PageTouched(offset, len, p);
      }
    } else if offset % PAGE_SIZE != 0 {
      assert offset / PAGE_SIZE in TouchedPages(offset, len);
      assert !Touches(offset, len, offset / PAGE_SIZE);
    }
  }

  /** How many pages that is. */
  function PageCount(offset: nat, len: nat): nat {
    if len > 0 then (offset + len - 1) / PAGE_SIZE - offset / PAGE_SIZE + 1
    else if offset % PAGE_SIZE == 0 then 0 else 1
  }

  ghost function TouchedSet(offset: nat, len: nat): set<nat> {
    set p | p in Below(offset + len) && Touches(offset, len, p)
  }

  /** Each page is returned once, in ascending order. */
  lemma TouchedOnce(offset: nat, len: nat)
    ensures var ps := TouchedPages(offset, len);
      && Ascending(ps) && |ps| == PageCount(offset, len)
      && (len > 0 ==> |ps| == |TouchedSet(offset, len)|)
  {
    var ps := TouchedPages(offset, len);
    TouchedLength(offset, len);
    if len > 0 {
      TouchedRange(offset, len);
      hide TouchedPages;
      forall p: nat ensures p in Elems(ps) <==> p in TouchedSet(offset, len) {
        PageTouched(offset, len, p);
      }
      assert Elems(ps) == TouchedSet(offset, len);
      AscendingCount(ps);
    }
  }

  lemma TouchedLength(offset: nat, len: nat)
    ensures var ps := TouchedPages(offset, len); Ascending(ps) && |ps| == PageCount(offset, len)
  {
    assert HEAP_BASE % PAGE_SIZE == 0;
    assert (HEAP_BASE + offset) % PAGE_SIZE == offset % PAGE_SIZE;
  }

  lemma PageTouched(offset: nat, len: nat, p: nat)
    requires len > 0
    ensures Touches(offset, len, p) <==> offset / PAGE_SIZE <= p && p * PAGE_SIZE < offset + len
  {
    if offset / PAGE_SIZE <= p && p * PAGE_SIZE < offset + len {
      var i := if offset >= p * PAGE_SIZE then offset else p * PAGE_SIZE;
      assert OnPage(i, p);
    }
  }

  // ----- committing what was written -----

  function Shift(pages: seq<nat>): (r: seq<nat>)
    ensures |r| == |pages| && forall i :: 0 <= i < |r| ==> r[i] == pages[i] + HEAP_OFFSET
    ensures forall p :: p in r ==> p >= HEAP_OFFSET && p - HEAP_OFFSET in pages
  {
    seq(|pages|, i requires 0 <= i < |pages| => pages[i] + HEAP_OFFSET)
  }

  /** A commit of pages that cover every change makes the changed region the mapped one. */
  lemma CommitMaps(s: Store, mem: seq<byte>, pages: seq<nat>)
    requires Safe(s.tables) && |mem| == MAPPED_BYTES && forall p :: p in pages ==> p < MAPPED_PAGES
    requires forall p: nat :: p < MAPPED_PAGES && p !in pages ==>
      PageAt(mem, p) == PageAt(BytesOf(View(s.tables.current, s.file)), p)
    requires SoftCommit(s, s.tables.current, PagesOf(mem), pages).Some?
    ensures var u := SoftCommit(s, s.tables.current, PagesOf(mem), pages).value;
      BytesOf(View(u.tables.current, u.file)) == mem
  {
    hide Safe, SoftCommit, View, Words, PageAt, BytesOf, PagesOf;
    CommitCorrect(s, PagesOf(mem), pages);
    var before := View(s.tables.current, s.file);
    var u := SoftCommit(s, s.tables.current, PagesOf(mem), pages).value;
    var after := View(u.tables.current, u.file);
    assert after == before + (map p | p in pages :: PagesOf(mem)[p]);
    forall p: nat | p < MAPPED_PAGES ensures PageAt(mem, p) == ReadPage(after, p) {
      PageOfBytes(before, p);
    }
    BytesFromPages(mem, after);
  }

  lemma UntouchedPage(mem: seq<byte>, at: nat, bytes: seq<byte>, p: nat)
    requires |mem| == MAPPED_BYTES && at + |bytes| <= MAPPED_BYTES && p < MAPPED_PAGES
    requires (p + 1) * PAGE_SIZE <= at || at + |bytes| <= p * PAGE_SIZE
    ensures PageAt(Splice(mem, at, bytes), p) == PageAt(mem, p)
  {
    var a, b := PageAt(Splice(mem, at, bytes), p), PageAt(mem, p);
    assert forall i :: 0 <= i < PAGE_SIZE ==> a[i] == b[i];
  }

  /** Writing bytes to the heap, committing the pages that were touched and mapping again changes
      exactly those bytes: no other byte of the heap, of the globals or of any snapshot. */
  lemma HeapWriteRoundTrip(s: Store, offset: nat, bytes: seq<byte>)
    requires Safe(s.tables) && HEAP_BASE + offset + |bytes| <= MAPPED_BYTES
    ensures
      var before := BytesOf(View(s.tables.current, s.file));
      var mem := Splice(before, HEAP_BASE + offset, bytes);
      var pages := Shift(TouchedPages(offset, |bytes|));
      && (forall p :: p in pages ==> p in PagesOf(mem))
      && (SoftCommit(s, s.tables.current, PagesOf(mem), pages).Some? ==>
          var u := SoftCommit(s, s.tables.current, PagesOf(mem), pages).value;
          && BytesOf(View(u.tables.current, u.file)) == mem
          && (forall r :: r in s.tables.rounds ==>
              r in u.tables.rounds && View(u.tables.rounds[r], u.file) == View(s.tables.rounds[r], s.file)))
  {
    hide Safe, SoftCommit, View, Words, BytesOf, TouchedPages, PageAt, Splice;
    var before := BytesOf(View(s.tables.current, s.file));
    var at := HEAP_BASE + offset;
    var mem := Splice(before, at, bytes);
    var pages := Shift(TouchedPages(offset, |bytes|));
    ShiftedPages(offset, |bytes|);
    assert forall p :: p in pages ==> p < MAPPED_PAGES;
    if SoftCommit(s, s.tables.current, PagesOf(mem), pages).Some? {
      forall p: nat | p < MAPPED_PAGES && p !in pages ensures PageAt(mem, p) == PageAt(before, p) {
        UntouchedPage(before, at, bytes, p);
      }
      CommitMaps(s, mem, pages);
      CommitCorrect(s, PagesOf(mem), pages);
    }
  }

  /** And it loses no slot. */
  lemma HeapWriteConserves(s: Store, mem: Memory, offset: nat, len: nat)
    requires Safe(s.tables)
    requires var pages := Shift(TouchedPages(offset, len));
      (forall p :: p in pages ==> p in mem) && SoftCommit(s, s.tables.current, mem, pages).Some?
    ensures var u := SoftCommit(s, s.tables.current, mem, Shift(TouchedPages(offset, len))).value;
      LostSlots(u.tables) == LostSlots(s.tables)
  {
    hide Safe, SoftCommit, TouchedPages;
    var pages := Shift(TouchedPages(offset, len));
    TouchedOnce(offset, len);
    assert !SharedTwice(s.tables.current, pages);
    hide SharedTwice;
    DistinctLosesNothing(s, Commit(pages, mem));
  }

  lemma ShiftedPages(offset: nat, len: nat)
    ensures var pages := Shift(TouchedPages(offset, len));
      forall p: nat :: p in pages <==>
        (HEAP_BASE + offset) / PAGE_SIZE <= p && p * PAGE_SIZE < HEAP_BASE + offset + len
  {
    TouchedRange(offset, len);
    hide TouchedPages;
    var ps := TouchedPages(offset, len);
    var pages := Shift(ps);
    forall p: nat ensures p in pages <==> p >= HEAP_OFFSET && p - HEAP_OFFSET in ps {
      if p >= HEAP_OFFSET && p - HEAP_OFFSET in ps {
        var i :| 0 <= i < |ps| && ps[i] == p - HEAP_OFFSET;
        assert pages[i] == p;
      }
      if p in pages {
        var i :| 0 <= i < |pages| && pages[i] == p;
        assert ps[i] in ps;
      }
    }
    assert (HEAP_BASE + offset) / PAGE_SIZE == HEAP_OFFSET + offset / PAGE_SIZE;
  }

  /** Updating the globals changes exactly the bytes given, and no snapshot. */
  lemma GlobalsRoundTrip(s: Store, bytes: seq<byte>)
    requires Safe(s.tables) && |bytes| <= GLOBALS_LEN * PAGE_SIZE
    ensures
      var before := BytesOf(View(s.tables.current, s.file));
      var mem := Splice(before, GLOBALS_OFFSET * PAGE_SIZE, bytes);
      && GLOBALS_OFFSET in PagesOf(mem)
      && (SoftCommit(s, s.tables.current, PagesOf(mem), [GLOBALS_OFFSET]).Some? ==>
          var u := SoftCommit(s, s.tables.current, PagesOf(mem), [GLOBALS_OFFSET]).value;
          && BytesOf(View(u.tables.current, u.file)) == mem
          && (forall r :: r in s.tables.rounds ==>
              r in u.tables.rounds && View(u.tables.rounds[r], u.file) == View(s.tables.rounds[r], s.file)))
  {
    hide Safe, SoftCommit, View, Words, BytesOf, PageAt, Splice;
    var before := BytesOf(View(s.tables.current, s.file));
    var mem := Splice(before, GLOBALS_OFFSET * PAGE_SIZE, bytes);
    var pages := [GLOBALS_OFFSET];
    if SoftCommit(s, s.tables.current, PagesOf(mem), pages).Some? {
      forall p: nat | p < MAPPED_PAGES && p !in pages ensures PageAt(mem, p) == PageAt(before, p) {
        assert GLOBALS_OFFSET in pages;
        UntouchedPage(before, GLOBALS_OFFSET * PAGE_SIZE, bytes, p);
      }
      CommitMaps(s, mem, pages);
      CommitCorrect(s, PagesOf(mem), pages);
    }
  }
}

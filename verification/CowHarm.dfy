/** What a legal step is for: after it no legal steps read what the naive store does not hold. After a step
    that breaks its condition some do, unless something stale, or the lack of a free slot, keeps them from
    being legal or possible. */
module CowHarm {
  import opened Basics
  import opened SlotWords
  import opened SortedTables
  import opened FreeLists
  import opened RangeMaps
  import opened SlotTables
  import opened CowStore
  import opened StatePages
  import opened CowRuns
  import opened CowStale

  /** The steps are legal, and what can be read after them is not what the naive store holds. */
  ghost predicate Differs(s: Store, n: Naive, es: seq<Step>) {
    LegalRun(s, es) && Abs(Run(s, es)) != NaiveRun(n, es)
  }

  lemma DiffersStep(s: Store, n: Naive, e: Step, es: seq<Step>)
    requires Legal(s, e) && Differs(Apply(s, e), NaiveStep(n, e), es)
    ensures Differs(s, n, [e] + es)
  {
    hide Possible, InOrder, GcAllows, Apply, Abs, NaiveStep;
    OneStep(s, e, es);
    assert ([e] + es)[1..] == es;
  }

  /** The step can be made, and afterwards some legal steps read what the naive store does not hold. */
  ghost predicate Harms(s: Store, e: Step)
    requires Possible(s, e)
  {
    exists more :: Differs(Apply(s, e), NaiveStep(Abs(s), e), more)
  }

  /** A legal step does no harm. */
  lemma LegalHarmless(s: Store, e: Step)
    requires Safe(s.tables) && Legal(s, e)
    ensures !Harms(s, e)
  {
    hide Safe, Apply, Abs, NaiveStep, Possible, InOrder, GcAllows;
    StepExact(s, e);
    forall more | LegalRun(Apply(s, e), more) ensures !Differs(Apply(s, e), NaiveStep(Abs(s), e), more) {
      RunRefines(Apply(s, e), more);
    }
  }

  // ----- a commit that takes every free word -----

  lemma {:induction false} UnusedFrom(keys: set<nat>) returns (b: nat)
    ensures forall k :: k in keys ==> k < b
    decreases |keys|
  {
    if keys == {} {
      b := 0;
    } else {
      var k :| k in keys;
      var c := UnusedFrom(keys - {k});
      b := if c <= k then k + 1 else c;
      assert forall x :: x in keys ==> x == k || x in keys - {k};
    }
  }

  function PagesFrom(b: nat, n: nat): (ps: seq<nat>)
    ensures |ps| == n && forall i :: 0 <= i < n ==> ps[i] == b + i
    ensures forall p :: p in ps <==> b <= p < b + n
  {
    if n == 0 then [] else PagesFrom(b, n - 1) + [b + n - 1]
  }

  /** The first n pages from b on have got the first n words. */
  ghost predicate Filled(words: seq<nat>, b: nat, n: nat, w: Writing)
    requires n <= |words|
  {
    && w.pool == words[n..]
    && (forall p :: p in w.puts <==> b <= p < b + n)
    && (forall p :: b <= p < b + n ==> w.puts[p].0 == words[p - b])
  }

  lemma FilledStep(seen: Table, mem: Memory, words: seq<nat>, b: nat, n: nat, w: Writing)
    requires n < |words| && Filled(words, b, n, w) && b + n in mem && SharedIn(seen, b + n)
    ensures Filled(words, b, n + 1, WritePage(seen, mem, w, b + n))
  {
    hide TableInfo, SlotOf;
  }

  /** Writing one page more. */
  lemma FillStep(seen: Table, mem: Memory, words: seq<nat>, file: FileMap, b: nat, n: nat)
    requires n < |words| && forall p :: p in PagesFrom(b, n + 1) ==> p in mem
    ensures b + n in mem && forall p :: p in PagesFrom(b, n) ==> p in PagesFrom(b, n + 1)
    ensures var w := WritePages(seen, mem, Writing(words, file, map[]), PagesFrom(b, n));
      && w.pool != []
      && WritePages(seen, mem, Writing(words, file, map[]), PagesFrom(b, n + 1)) == WritePage(seen, mem, w, b + n)
  {
    hide WritePage;
    var pages := PagesFrom(b, n + 1);
    assert pages[n] == b + n && pages[..n] == PagesFrom(b, n);
  }

  lemma FillNone(seen: Table, mem: Memory, words: seq<nat>, file: FileMap, b: nat)
    ensures Filled(words, b, 0, WritePages(seen, mem, Writing(words, file, map[]), []))
  {
  }

  /** Pages that all need new slots take the words in order. */
  lemma {:induction false} FillPuts(seen: Table, mem: Memory, words: seq<nat>, file: FileMap, b: nat, n: nat)
    requires n <= |words| && forall p :: p in PagesFrom(b, n) ==> p in mem && SharedIn(seen, p)
    ensures Filled(words, b, n, WritePages(seen, mem, Writing(words, file, map[]), PagesFrom(b, n)))
  {
    hide WritePage, WritePages, Filled, SharedIn, PagesFrom;
    if n == 0 {
      assert PagesFrom(b, n) == [];
      FillNone(seen, mem, words, file, b);
    } else {
      FillStep(seen, mem, words, file, b, n - 1);
      FillPuts(seen, mem, words, file, b, n - 1);
      var w := WritePages(seen, mem, Writing(words, file, map[]), PagesFrom(b, n - 1));
      assert b + (n - 1) in PagesFrom(b, n);
      FilledStep(seen, mem, words, b, n - 1, w);
    }
  }

  /** A slot ends up with the contents that all its later writers have. */
  lemma {:induction false} FillSlot(
      seen: Table, mem: Memory, words: seq<nat>, file: FileMap, b: nat, n: nat, j: nat, y: Page)
    requires j < n <= |words| && forall p :: p in PagesFrom(b, n) ==> p in mem && SharedIn(seen, p)
    requires forall p :: p in mem && b + j <= p < b + n ==> mem[p] == y
    ensures var w := WritePages(seen, mem, Writing(words, file, map[]), PagesFrom(b, n));
      ReadSlot(w.file, SlotOf(words[j])) == y
  {
    hide WritePages, SharedIn, PagesFrom, SlotOf, ReadSlot, WritePage;
    FillStep(seen, mem, words, file, b, n - 1);
    FillPuts(seen, mem, words, file, b, n - 1);
    var w := WritePages(seen, mem, Writing(words, file, map[]), PagesFrom(b, n - 1));
    assert b + (n - 1) in PagesFrom(b, n);
    if j < n - 1 {
      FillSlot(seen, mem, words, file, b, n - 1, j, y);
    }
    WrittenSlot(seen, mem, w, b + (n - 1), SlotOf(words[j]));
  }

  /** A page written to a new slot is in the slot of the next word, and other slots stay. */
  lemma WrittenSlot(seen: Table, mem: Memory, w: Writing, p: nat, x: nat)
    requires p in mem && w.pool != [] && SharedIn(seen, p)
    ensures ReadSlot(WritePage(seen, mem, w, p).file, x) ==
            if x == SlotOf(w.pool[0]) then mem[p] else ReadSlot(w.file, x)
  {
    hide TableInfo, SlotOf;
  }

  /** Asking for as many words as are free gives all of them. */
  lemma AllWords(f: FreeList) returns (words: seq<nat>, left: FreeList)
    requires Disjoint(f)
    ensures Alloc(f, |Words(f)|) == Some((words, left)) && Ascending(words) && |words| == |Words(f)|
    ensures Elems(words) == Words(f)
  {
    hide Words, Disjoint, Alloc;
    AllocTakesSmallest(f, |Words(f)|);
    ServedEnough(f, |Words(f)|, Alloc(f, |Words(f)|));
    var r := Alloc(f, |Words(f)|).value;
    words, left := r.0, r.1;
    AscendingCount(words);
    SubsetCount(Elems(words), Words(f));
  }

  /** What a commit of pages nobody mapped, as many as there are free words, does. */
  lemma Fill(u: Store, mem: Memory, b: nat, words: seq<nat>, left: FreeList)
    requires Alloc(u.tables.free, |words|) == Some((words, left))
    requires forall p :: p in PagesFrom(b, |words|) ==> p in mem && p !in u.tables.current
    ensures var e := Commit(PagesFrom(b, |words|), mem);
      && Possible(u, e)
      && Apply(u, e).tables.rounds == u.tables.rounds
      && (forall p :: p in u.tables.current ==>
          p in Apply(u, e).tables.current && Apply(u, e).tables.current[p] == u.tables.current[p])
      && (forall p :: b <= p < b + |words| ==>
          p in Apply(u, e).tables.current && SlotOf(Apply(u, e).tables.current[p]) == SlotOf(words[p - b]))
      && Apply(u, e).file ==
         WritePages(u.tables.current, mem, Writing(words, u.file, map[]), PagesFrom(b, |words|)).file
  {
    hide Alloc, WritePages, PutBack, SlotOf, MarkPrivate, PutMappings;
    var n := |words|;
    var pages := PagesFrom(b, n);
    assert forall p :: p in pages ==> SharedIn(u.tables.current, p);
    FillPuts(u.tables.current, mem, words, u.file, b, n);
    var w := WritePages(u.tables.current, mem, Writing(words, u.file, map[]), pages);
    var t := u.tables.(free := PutBack(left, Elems(w.pool)));
    forall p | b <= p < b + n ensures p !in u.tables.current { assert p == pages[p - b]; }
    PublishedPages(t, w.puts);
  }

  lemma PublishedPages(t: Tables, puts: Puts)
    ensures var u := PutMappings(t, puts);
      && u.rounds == t.rounds
      && (forall p :: p in t.current && p !in puts ==> p in u.current && u.current[p] == t.current[p])
      && (forall p :: p in puts ==> p in u.current && SlotOf(u.current[p]) == SlotOf(puts[p].0))
  {
    hide SlotOf, MarkPrivate;
    forall p | p in puts ensures SlotOf(MarkPrivate(puts[p].0)) == SlotOf(puts[p].0) {
      MarkKeeps(puts[p].0);
    }
  }

  lemma MarkKeeps(w: nat)
    ensures SlotOf(MarkPrivate(w)) == SlotOf(w)
  {
  }

  /** With a free word for a slot, a commit of pages nobody mapped writes anything to that slot. */
  lemma FillCommit(u: Store, w: nat, y: Page) returns (e: Step)
    requires Disjoint(u.tables.free) && w in Words(u.tables.free)
    ensures e.Commit? && Possible(u, e) && forall p :: p in e.pages ==> p !in u.tables.current
    ensures ReadSlot(Apply(u, e).file, SlotOf(w)) == y
    ensures Apply(u, e).tables.rounds == u.tables.rounds
    ensures forall p :: p in u.tables.current ==>
      p in Apply(u, e).tables.current && Apply(u, e).tables.current[p] == u.tables.current[p]
  {
    hide Words, Disjoint, Alloc, WritePages, ReadSlot, SlotOf, Apply, Possible;
    var b := UnusedFrom(u.tables.current.Keys);
    var words, left := AllWords(u.tables.free);
    var mem: Memory := map p | p in PagesFrom(b, |words|) :: y;
    e := Commit(PagesFrom(b, |words|), mem);
    assert w in Elems(words);
    var j :| 0 <= j < |words| && words[j] == w;
    Fill(u, mem, b, words, left);
    FillSlot(u.tables.current, mem, words, u.file, b, |words|, j, y);
  }

  lemma AbsCurrent(s: Store, p: nat)
    requires p in s.tables.current
    ensures p in Abs(s).current && Abs(s).current[p] == ReadSlot(s.file, SlotOf(s.tables.current[p]))
  {
  }

  lemma AbsRound(s: Store, r: nat, q: nat)
    requires r in s.tables.rounds && q in s.tables.rounds[r]
    ensures r in Abs(s).rounds && q in Abs(s).rounds[r]
    ensures Abs(s).rounds[r][q] == ReadSlot(s.file, SlotOf(s.tables.rounds[r][q]))
  {
  }

  /** A page whose slot is free can be overwritten by a commit of others. */
  lemma PageLost(u: Store, n: Naive, p: nat, w: nat) returns (e: Step)
    requires Disjoint(u.tables.free) && w in Words(u.tables.free)
    requires p in u.tables.current && SlotOf(u.tables.current[p]) == SlotOf(w)
    requires p in n.current && n.current[p] == ReadSlot(u.file, SlotOf(w))
    ensures e.Commit? && Differs(u, n, [e])
  {
    hide Words, Disjoint, Apply, Possible, Abs, ReadSlot, SlotOf;
    e := FillCommit(u, w, Other(ReadSlot(u.file, SlotOf(w))));
    var v := Apply(u, e);
    AbsCurrent(v, p);
    assert NaiveStep(n, e).current[p] == n.current[p];
    DiffersNow(v, NaiveStep(n, e));
    DiffersStep(u, n, e, []);
    assert [e] + [] == [e];
  }

  lemma DiffersNow(s: Store, n: Naive)
    requires Abs(s) != n
    ensures Differs(s, n, [])
  {
  }

  /** So can a round's. */
  lemma RoundLost(u: Store, n: Naive, r: nat, q: nat, w: nat) returns (e: Step)
    requires Disjoint(u.tables.free) && w in Words(u.tables.free)
    requires r in u.tables.rounds && q in u.tables.rounds[r] && SlotOf(u.tables.rounds[r][q]) == SlotOf(w)
    requires r in n.rounds && q in n.rounds[r] && n.rounds[r][q] == ReadSlot(u.file, SlotOf(w))
    ensures e.Commit? && Differs(u, n, [e])
  {
    hide Words, Disjoint, Apply, Possible, Abs, ReadSlot, SlotOf;
    e := FillCommit(u, w, Other(ReadSlot(u.file, SlotOf(w))));
    var v := Apply(u, e);
    AbsRound(v, r, q);
    DiffersNow(v, NaiveStep(n, e));
    DiffersStep(u, n, e, []);
    assert [e] + [] == [e];
  }

  /** Two pages that get one slot cannot both be read back. */
  lemma SlotTwice(u: Store, n: Naive, v: nat, w: nat) returns (e: Step)
    requires Disjoint(u.tables.free) && v in Words(u.tables.free) && w in Words(u.tables.free)
    requires v < w && SlotOf(v) == SlotOf(w)
    ensures e.Commit? && Differs(u, n, [e])
  {
    hide Words, Disjoint, Alloc, SlotOf, Differs;
    var b := UnusedFrom(u.tables.current.Keys);
    var words, left := AllWords(u.tables.free);
    assert v in Elems(words) && w in Elems(words);
    var i :| 0 <= i < |words| && words[i] == v;
    var j :| 0 <= j < |words| && words[j] == w;
    assert i < j;
    e := TwoPages(u, n, b, words, left, i, j);
  }

  lemma TwoPages(u: Store, n: Naive, b: nat, words: seq<nat>, left: FreeList, i: nat, j: nat) returns (e: Step)
    requires Alloc(u.tables.free, |words|) == Some((words, left)) && forall p :: p in u.tables.current ==> p < b
    requires i < j < |words| && SlotOf(words[i]) == SlotOf(words[j])
    ensures e.Commit? && Differs(u, n, [e])
  {
    hide Alloc, WritePages, ReadSlot, SlotOf, Apply, Possible, Abs, Differs, PagesFrom, NaiveStep, Marked, SharedIn;
    var k, a := |words|, b + i;
    var mem := Marked(b, k, a);
    e := Commit(PagesFrom(b, k), mem);
    Fill(u, mem, b, words, left);
    assert forall p :: p in PagesFrom(b, k) ==> SharedIn(u.tables.current, p) by { NewShared(u.tables.current, b, k); }
    FillSlot(u.tables.current, mem, words, u.file, b, k, j, ZERO_PAGE);
    var v := Apply(u, e);
    assert SlotOf(v.tables.current[a]) == SlotOf(words[a - b]);
    AbsCurrent(v, a);
    NaiveHolds(n, e, a);
    DiffersNow(v, NaiveStep(n, e));
    DiffersStep(u, n, e, []);
    assert [e] + [] == [e];
  }

  /** Zero pages, but for one. */
  ghost function Marked(b: nat, n: nat, a: nat): (m: Memory)
    ensures forall p :: p in m <==> b <= p < b + n
    ensures forall p :: p in m ==> m[p] == if p == a then Other(ZERO_PAGE) else ZERO_PAGE
  {
    map p | p in PagesFrom(b, n) :: if p == a then Other(ZERO_PAGE) else ZERO_PAGE
  }

  lemma NewShared(seen: Table, b: nat, n: nat)
    requires forall p :: p in seen ==> p < b
    ensures forall p :: p in PagesFrom(b, n) ==> SharedIn(seen, p)
  {
  }

  lemma NaiveHolds(n: Naive, e: Step, p: nat)
    requires e.Commit? && p in e.pages && p in e.mem
    ensures p in NaiveStep(n, e).current && NaiveStep(n, e).current[p] == e.mem[p]
  {
  }

  // ----- removal -----

  lemma RemoveShows(s: Store, e: Step)
    requires e.Remove? || e.Purge?
    ensures Abs(Apply(s, e)) == NaiveStep(Abs(s), e)
  {
    hide View, PutBack, Expiring;
    assert Abs(Apply(s, e)).rounds == NaiveStep(Abs(s), e).rounds;
  }

  /** A removal that frees a slot in use, or one that is free already, is seen after one commit. */
  lemma RemoveHarms(s: Store, e: Step) returns (more: seq<Step>)
    requires Safe(s.tables) && (e.Remove? || e.Purge?) && !CleanExpiry(s.tables, e.bound)
    ensures |more| == 1 && more[0].Commit? && Differs(Apply(s, e), NaiveStep(Abs(s), e), more)
  {
    hide Words, Disjoint, Spread, Differs, Abs, NaiveStep;
    var t, u := s.tables, Apply(s, e);
    RemoveShows(s, e);
    RemoveFreeList(t, e.bound);
    var x :| x in Expiring(t, e.bound) && (InCurrent(t, x) || x + TAG in Words(t.free));
    assert x in Words(u.tables.free) && SlotOf(x) == x;
    var c: Step;
    if p :| Mapped(t, p, x) {
      AbsCurrent(u, p);
      c := PageLost(u, Abs(u), p, x);
    } else {
      assert SlotOf(x + TAG) == x;
      c := SlotTwice(u, Abs(u), x, x + TAG);
    }
    more := [c];
  }

  /** So removal, as written or as documented, does harm exactly when it frees such a slot. */
  lemma RemoveHarmsExactly(s: Store, e: Step)
    requires Safe(s.tables) && (e.Remove? || e.Purge?)
    ensures Harms(s, e) <==> !CleanExpiry(s.tables, e.bound)
  {
    hide Safe, Differs, Apply, Abs, NaiveStep, CleanExpiry;
    if CleanExpiry(s.tables, e.bound) {
      LegalHarmless(s, e);
    } else {
      var more := RemoveHarms(s, e);
    }
  }

  // ----- clearing -----

  lemma ClearShows(s: Store)
    ensures Abs(Apply(s, Clear)) == NaiveStep(Abs(s), Clear)
  {
    hide ReadSlot;
  }

  /** The entry is for a slot that a later round uses. */
  ghost predicate LateEntry(t: Tables, x: nat, r: nat, q: nat) {
    x in t.gc && InRound(t, r, q, x) && r > t.gc[x]
  }

  /** A clear frees no slot, in its tagged form, that expires with the given one. */
  ghost predicate NoneTagged(t: Tables, x: nat)
    requires x in t.gc
  {
    forall y: nat :: y in t.gc && t.gc[y] <= t.gc[x] ==> y + TAG !in Words(ClearCurrent(t).free)
  }

  lemma ClearedClean(t: Tables, x: nat)
    requires Safe(t) && x in t.gc && NoneTagged(t, x)
    ensures CleanExpiry(ClearCurrent(t), t.gc[x] + 1)
  {
    hide Words, Disjoint, Spread;
  }

  /** Removing up to the entry then frees the slot, and the round stays. */
  lemma ClearThenRemove(t: Tables, x: nat, r: nat, q: nat)
    requires Safe(t) && LateEntry(t, x, r, q)
    ensures var v := RemoveBelow(ClearCurrent(t), t.gc[x] + 1);
      && Disjoint(v.free) && x in Words(v.free) && SlotOf(x) == x
      && r in v.rounds && q in v.rounds[r] && SlotOf(v.rounds[r][q]) == x
  {
    hide Words, Disjoint, Spread;
    assert FreeListOk(t) && InBounds(t);
    ClearKeepsFreeList(t);
    hide Safe, PutBack;
    RemoveFreeList(ClearCurrent(t), t.gc[x] + 1);
  }

  /** Dropping a table that kept a stale entry in check is seen after a removal and a commit: removing up
      to that entry frees a slot of a round that stays. */
  lemma ClearHarms(s: Store, x: nat, r: nat, q: nat) returns (more: seq<Step>)
    requires Safe(s.tables) && LateEntry(s.tables, x, r, q) && NoneTagged(s.tables, x)
    ensures |more| == 2 && more[0] == Remove(s.tables.gc[x] + 1) && more[1].Commit?
    ensures Differs(Apply(s, Clear), NaiveStep(Abs(s), Clear), more)
  {
    hide Safe, Words, Disjoint, Differs, Abs, NaiveStep, ClearCurrent, RemoveBelow, CleanExpiry, NoneTagged, SoftCommit;
    var t := s.tables;
    var e := Remove(t.gc[x] + 1);
    var u := Apply(s, Clear);
    ClearShows(s);
    ClearedClean(t, x);
    var v := Apply(u, e);
    RemoveShows(u, e);
    ClearThenRemove(t, x, r, q);
    AbsRound(v, r, q);
    var c := RoundLost(v, Abs(v), r, q, x);
    more := [e] + [c];
    DiffersStep(u, Abs(u), e, [c]);
  }

  /** So where no slot waiting to be collected is freed in its tagged form, a clear does harm exactly when
      some entry is for a slot that a later round uses. */
  lemma ClearHarmsExactly(s: Store)
    requires Safe(s.tables) && forall y :: y in s.tables.gc ==> y + TAG !in Words(ClearCurrent(s.tables).free)
    ensures Harms(s, Clear) <==> !GcExact(s.tables)
  {
    hide Safe, Differs, Apply, Abs, NaiveStep, Words, ClearCurrent, InRound;
    if GcExact(s.tables) {
      LegalHarmless(s, Clear);
    } else {
      var x, r, q :| x in s.tables.gc && InRound(s.tables, r, q, x) && r > s.tables.gc[x];
      var more := ClearHarms(s, x, r, q);
    }
  }

  // ----- a round ended, or the store reopened, before a round that shares a slot with the current table -----

  /** The tables would be safe had the last executed round been m. */
  ghost predicate SafeAt(t: Tables, m: nat) { Safe(t.(last := m)) }

  /** What does not depend on the last executed round. */
  lemma LastAside(t: Tables, m: nat)
    ensures var u := t.(last := m);
      && (forall r: nat, p: nat, s: nat :: InRound(u, r, p, s) <==> InRound(t, r, p, s))
      && (forall p: nat, s: nat :: Mapped(u, p, s) <==> Mapped(t, p, s))
      && (forall s: nat :: InCurrent(u, s) <==> InCurrent(t, s))
      && (forall s: nat :: IsFree(u, s) <==> IsFree(t, s))
  {
    hide Words;
    var u := t.(last := m);
    forall p: nat, s: nat ensures Mapped(u, p, s) <==> Mapped(t, p, s) {}
    forall s: nat ensures InCurrent(u, s) <==> InCurrent(t, s) {
      if p :| Mapped(t, p, s) { assert Mapped(u, p, s); }
      if p :| Mapped(u, p, s) { assert Mapped(t, p, s); }
    }
  }

  lemma AtFacts(t: Tables, m: nat)
    requires SafeAt(t, m)
    ensures InBounds(t) && FreeListOk(t) && FreeUnused(t) && OnePage(t) && PrivateInNoRound(t) && GcHistory(t)
  {
    hide Words, Disjoint, Spread;
    LastAside(t, m);
  }

  lemma EndRoundAt(t: Tables, round: nat, m: nat)
    requires Safe(t) && round <= m && t.last <= m
    ensures SafeAt(EndRound(t, round), m)
  {
    hide Words, Disjoint, Spread;
    var u := EndRound(t, round).(last := m);
    SameCurrent(t, u);
    forall r, p, s ensures InRound(u, r, p, s) ==> InRound(t, r, p, s) || (r == round && Mapped(t, p, s)) {}
  }

  /** A round after the last executed one shares a slot with the current table. */
  ghost predicate Late(t: Tables, r: nat, q: nat, x: nat) {
    InRound(t, r, q, x) && InCurrent(t, x) && r > t.last
  }

  /** One free word, and the free list without it. */
  lemma OneFree(t: Tables) returns (k: nat, left: FreeList)
    requires FreeListOk(t) && Words(t.free) != {}
    ensures Alloc(t.free, 1) == Some(([k], left)) && k in Words(t.free) && Disjoint(left)
    ensures Words(left) <= Words(t.free)
    ensures forall x: nat :: Spread(left, x) ==> Spread(t.free, x)
  {
    hide Words, Spread, Alloc;
    AllocTakesSmallest(t.free, 1);
    ServedEnough(t.free, 1, Alloc(t.free, 1));
    var (words, rest) := Alloc(t.free, 1).value;
    k, left := words[0], rest;
    assert words == [k] && k in Elems(words);
    forall x: nat | Spread(left, x) ensures Spread(t.free, x) { AllocSpread(t.free, 1, x); }
  }

  /** A free word names no slot that a page has. */
  lemma FreeNotMapped(t: Tables, k: nat, p: nat, x: nat)
    requires InBounds(t) && FreeListOk(t) && FreeUnused(t) && k in Words(t.free) && Mapped(t, p, x)
    ensures SlotOf(k) != x && x < t.nrSlots <= SLOT_BOUND && !Spread(t.free, x)
  {
    hide Words, Disjoint, Spread;
    assert !IsFree(t, x);
    SpreadIsWord(t.free, x);
  }

  /** No slot that expires is in use or free already, the one that is about to be replaced aside. */
  ghost predicate CleanBut(t: Tables, x: nat) {
    forall y: nat :: y in Expiring(t, t.last + 1) && y != x ==> !InCurrent(t, y) && !IsFree(t, y)
  }

  lemma RecordedTables(t: Tables, p: nat, x: nat, k: nat, left: FreeList)
    requires FreeListOk(t) && Disjoint(left) && Words(left) <= Words(t.free)
    requires x < t.nrSlots <= SLOT_BOUND && !Spread(t.free, x)
    requires forall y: nat :: Spread(left, y) ==> Spread(t.free, y)
    ensures var v := PutOne(t.(free := left), p, k, x);
      && FreeListOk(v) && v.rounds == t.rounds && v.last == t.last && x in v.gc && v.gc[x] == t.last
  {
    hide Words, Disjoint, Spread;
  }

  /** Overwriting the page records its slot with a round before the late one. */
  lemma RecordedEarly(u: Store, p: nat, x: nat) returns (c: Step)
    requires InBounds(u.tables) && FreeListOk(u.tables) && FreeUnused(u.tables) && OnePage(u.tables)
    requires Mapped(u.tables, p, x) && IsShared(u.tables.current[p]) && Words(u.tables.free) != {}
    requires CleanBut(u.tables, x)
    ensures c.Commit? && c.pages == [p] && Legal(u, c)
    ensures var v := Apply(u, c);
      && FreeListOk(v.tables) && v.tables.rounds == u.tables.rounds && v.tables.last == u.tables.last
      && x in v.tables.gc && v.tables.gc[x] == u.tables.last
      && ReadSlot(v.file, x) == ReadSlot(u.file, x)
      && CleanExpiry(v.tables, u.tables.last + 1)
  {
    hide Words, Disjoint, Spread, Alloc, SoftCommit, CleanBut, CleanExpiry, OnePage, PutOne;
    var t := u.tables;
    var k, left := OneFree(t);
    FreeNotMapped(t, k, p, x);
    c := Commit([p], map[p := ZERO_PAGE]);
    CommitOne(u, t.current, p, ZERO_PAGE, k, left);
    PutOneIs(t.(free := left), p, k, x);
    StaysClean(t, p, x, k, left);
    RecordedTables(t, p, x, k, left);
  }

  lemma StaysCleanAt(t: Tables, p: nat, x: nat, k: nat, left: FreeList, y: nat)
    requires InBounds(t) && FreeListOk(t) && FreeUnused(t) && OnePage(t) && Mapped(t, p, x)
    requires CleanBut(t, x) && k in Words(t.free) && Words(left) <= Words(t.free) && x != INVALID_SLOT
    requires y in Expiring(PutOne(t.(free := left), p, k, x), t.last + 1)
    ensures var v := PutOne(t.(free := left), p, k, x); !InCurrent(v, y) && y + TAG !in Words(v.free)
  {
    hide Words, InBounds, FreeListOk, OnePage, IsFree, Mapped, MarkPrivate;
    var v := PutOne(t.(free := left), p, k, x);
    FreeSlotIs(t, k);
    assert y == x || y in Expiring(t, t.last + 1);
    assert !IsFree(t, y);
    NotFreed(t, left, y);
    forall q ensures !Mapped(v, q, y) { MovedFrom(t, p, x, k, left, q, y); }
  }

  lemma StaysClean(t: Tables, p: nat, x: nat, k: nat, left: FreeList)
    requires InBounds(t) && FreeListOk(t) && FreeUnused(t) && OnePage(t) && Mapped(t, p, x)
    requires CleanBut(t, x) && k in Words(t.free) && Words(left) <= Words(t.free) && x != INVALID_SLOT
    ensures CleanExpiry(PutOne(t.(free := left), p, k, x), t.last + 1)
  {
    hide Words, InBounds, FreeListOk, FreeUnused, OnePage, CleanBut, Mapped, InCurrent, Expiring, PutOne;
    var v := PutOne(t.(free := left), p, k, x);
    forall y: nat | y in Expiring(v, t.last + 1) ensures !InCurrent(v, y) && y + TAG !in Words(v.free) {
      StaysCleanAt(t, p, x, k, left, y);
    }
  }

  lemma NotFreed(t: Tables, left: FreeList, y: nat)
    requires !IsFree(t, y) && Words(left) <= Words(t.free)
    ensures y + TAG !in Words(left)
  {
    hide Words;
  }

  /** No page has a slot that was neither free nor another page's. */
  lemma MovedFrom(t: Tables, p: nat, x: nat, k: nat, left: FreeList, q: nat, y: nat)
    requires InBounds(t) && OnePage(t) && Mapped(t, p, x)
    requires y == x || !InCurrent(t, y)
    requires SlotOf(k) != y
    ensures !Mapped(PutOne(t.(free := left), p, k, x), q, y)
  {
    if q == p {
      MarkKeeps(k);
    } else {
      assert Mapped(PutOne(t.(free := left), p, k, x), q, y) <==> Mapped(t, q, y);
    }
  }

  lemma FreeSlotIs(t: Tables, k: nat)
    requires InBounds(t) && FreeListOk(t) && k in Words(t.free)
    ensures IsFree(t, SlotOf(k))
  {
    hide Words, Disjoint, Spread;
  }

  /** So a removal that keeps the late round frees its slot, and the next commit overwrites it. */
  lemma LateHarms(u: Store, n: Naive, m: nat, r: nat, q: nat, x: nat) returns (more: seq<Step>)
    requires SafeAt(u.tables, m) && Late(u.tables, r, q, x) && Words(u.tables.free) != {}
    requires CleanBut(u.tables, x)
    requires r in n.rounds && q in n.rounds[r] && n.rounds[r][q] == ReadSlot(u.file, x)
    ensures |more| == 3 && more[0].Commit? && more[1] == Remove(u.tables.last + 1) && more[2].Commit?
    ensures Differs(u, n, more)
  {
    hide Words, Disjoint, Spread, Differs, Abs, SoftCommit, ReadSlot, SafeAt, CleanExpiry, CleanBut;
    AtFacts(u.tables, m);
    var p :| Mapped(u.tables, p, x);
    var c := RecordedEarly(u, p, x);
    var v := Apply(u, c);
    var e := Remove(u.tables.last + 1);
    var w := Apply(v, e);
    RemoveFreeList(v.tables, e.bound);
    assert x in Words(w.tables.free) && InRound(w.tables, r, q, x);
    assert SlotOf(x) == x;
    var n1 := NaiveStep(n, c);
    var n2 := NaiveStep(n1, e);
    assert n1.rounds == n.rounds && r in n2.rounds && n2.rounds[r] == n.rounds[r];
    var d := RoundLost(w, n2, r, q, x);
    assert Legal(v, e);
    hide Apply, NaiveStep, Legal;
    DiffersStep(v, n1, e, [d]);
    more := [c] + ([e] + [d]);
    DiffersStep(u, n, c, [e] + [d]);
  }

  lemma RoundReads(u: Store, m: nat, r: nat, q: nat, x: nat)
    requires SafeAt(u.tables, m) && InRound(u.tables, r, q, x)
    ensures r in Abs(u).rounds && q in Abs(u).rounds[r] && Abs(u).rounds[r][q] == ReadSlot(u.file, x)
  {
    hide Words, Disjoint, Spread;
    AtFacts(u.tables, m);
    AbsRound(u, r, q);
    assert SlotOf(x) == x;
  }

  lemma SameReads(s: Store, u: Store)
    requires u.file == s.file && u.tables.current == s.tables.current && u.tables.rounds == s.tables.rounds
    ensures Abs(u) == Abs(s)
  {
  }

  /** The tables after such a step, and the round up to which they are safe. */
  lemma LateTables(s: Store, e: Step) returns (m: nat)
    requires Safe(s.tables) && (e.Snapshot? || e.Reopened?)
    ensures SafeAt(Apply(s, e).tables, m)
    ensures GcPending(s.tables) ==> GcPending(Apply(s, e).tables)
  {
    hide Words, Disjoint, Spread;
    var t, u := s.tables, Apply(s, e).tables;
    SameCurrent(t, u);
    if e.Snapshot? {
      m := if e.round <= t.last then t.last else e.round;
      EndRoundAt(t, e.round, m);
    } else {
      m := t.last;
      assert u.(last := m) == t;
    }
  }

  /** The tables with the round that such a step makes the last executed one. */
  function Ended(s: Store, e: Step): Tables {
    match e
    case Snapshot(round) => s.tables.(last := round)
    case Reopened => Reopen(s.tables)
    case _ => s.tables
  }

  /** A round is ended again that has a page the current table has not. */
  predicate Drops(s: Store, e: Step) {
    e.Snapshot? && e.round in s.tables.rounds && !(s.tables.rounds[e.round].Keys <= s.tables.current.Keys)
  }

  /** Only that is read at once. */
  lemma DropsShows(s: Store, e: Step)
    requires Safe(s.tables) && (e.Snapshot? || e.Reopened?)
    ensures Abs(Apply(s, e)) == NaiveStep(Abs(s), e) <==> !Drops(s, e)
  {
    hide Safe, Opened, View;
    SafeValid(s.tables);
    if e.Snapshot? {
      hide Abs, NaiveStep;
      SnapshotShows(s, e.round);
      OpenedIs(s.tables, e.round);
    } else {
      SameReads(s, Apply(s, e));
    }
  }

  lemma EndedLate(s: Store, e: Step)
    requires Safe(s.tables) && (e.Snapshot? || e.Reopened?)
    ensures var t, u := Ended(s, e), Apply(s, e).tables;
      && u.free == t.free && u.gc == t.gc && u.last == t.last
      && (forall r: nat, q: nat, x: nat :: Late(u, r, q, x) <==> Late(t, r, q, x))
      && (forall x: nat :: CleanBut(u, x) <==> CleanBut(t, x))
  {
    hide Words, Disjoint, Spread;
    var t, u := Ended(s, e), Apply(s, e).tables;
    SameCurrent(t, u);
    assert forall y: nat :: IsFree(u, y) <==> IsFree(t, y);
    assert Expiring(u, u.last + 1) == Expiring(t, t.last + 1);
    hide Safe, InCurrent, IsFree;
    forall r: nat, q: nat, x: nat ensures Late(u, r, q, x) <==> Late(t, r, q, x) {}
    forall x: nat ensures CleanBut(u, x) <==> CleanBut(t, x) {}
  }

  /** Enough for a step that is not legal to be seen. */
  ghost predicate Apparent(s: Store, e: Step) {
    match e
    case Clear => exists x, r, q :: LateEntry(s.tables, x, r, q) && NoneTagged(s.tables, x)
    case Snapshot(_) => Drops(s, e) || LateApparent(Ended(s, e))
    case Reopened => LateApparent(Ended(s, e))
    case _ => true
  }

  /** A slot is free, and a late round shares a slot with the current table that nothing stale keeps from
      being collected. */
  ghost predicate LateApparent(t: Tables) {
    Words(t.free) != {} && exists r, q, x :: Late(t, r, q, x) && CleanBut(t, x)
  }

  lemma LateApparentHarms(s: Store, e: Step)
    requires Safe(s.tables) && (e.Snapshot? || e.Reopened?)
    requires Drops(s, e) || LateApparent(Ended(s, e))
    ensures Harms(s, e)
  {
    hide Safe, Words, Differs, Abs, NaiveStep, CleanBut, SafeAt, Late, Drops, Apply, Ended;
    var u, n := Apply(s, e), NaiveStep(Abs(s), e);
    DropsShows(s, e);
    EndedLate(s, e);
    if Drops(s, e) {
      DiffersNow(u, n);
    } else {
      var r: nat, q: nat, x: nat :| Late(Ended(s, e), r, q, x) && CleanBut(Ended(s, e), x);
      var m := LateTables(s, e);
      assert InRound(u.tables, r, q, x) by { LateIs(u.tables, r, q, x); }
      RoundReads(u, m, r, q, x);
      var more := LateHarms(u, n, m, r, q, x);
    }
  }

  lemma LateIs(t: Tables, r: nat, q: nat, x: nat)
    requires Late(t, r, q, x)
    ensures InRound(t, r, q, x) && InCurrent(t, x) && r > t.last
  {
  }

  /** A step that is not legal, made on any safe store, can be seen after legal steps: always if it is a
      removal, and otherwise where nothing else that is stale stands in the way of the removal that frees
      the slot. */
  lemma IllegalHarms(s: Store, e: Step)
    requires Safe(s.tables) && Possible(s, e) && !Legal(s, e) && Apparent(s, e)
    ensures Harms(s, e)
  {
    hide Safe, Differs, Abs, NaiveStep, NoneLater, CleanExpiry, GcExact, LateApparent, NoneTagged, SoftCommit;
    match e
    case Snapshot(_) => LateApparentHarms(s, e);
    case Remove(_) => var more := RemoveHarms(s, e);
    case Purge(_) => var more := RemoveHarms(s, e);
    case Clear =>
      var x: nat, r: nat, q: nat :| LateEntry(s.tables, x, r, q) && NoneTagged(s.tables, x);
      var more := ClearHarms(s, x, r, q);
    case Reopened => LateApparentHarms(s, e);
    case _ =>
  }
}

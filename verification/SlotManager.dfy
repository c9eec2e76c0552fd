/** The slot manager: the object whose operations read and update the tables. Each operation is one
    transaction; its contract says which tables the transaction leaves behind. */
module SlotManager {
  import opened Basics
  import opened SlotWords
  import opened SortedTables
  import opened FreeLists
  import opened RangeMaps
  import opened SlotTables

  /** Words handed out before the rest of an allocation. */
  ghost function Prepend(words: seq<nat>, r: Option<(seq<nat>, FreeList)>): Option<(seq<nat>, FreeList)> {
    match r
    case None => None
    case Some((more, left)) => Some((words + more, left))
  }

  lemma PrependNothing(r: Option<(seq<nat>, FreeList)>)
    ensures Prepend([], r) == r
  {
    if r.Some? { assert [] + r.value.0 == r.value.0; }
  }

  lemma AllocEmpty(words: seq<nat>, count: nat)
    requires count > 0
    ensures Prepend(words, Alloc(map[], count)).None?
  {
  }

  lemma AllocNothing(words: seq<nat>, f: FreeList)
    ensures Prepend(words, Alloc(f, 0)) == Some((words, f))
  {
    assert words + [] == words;
  }

  /** One turn of the allocation loop. */
  lemma AllocStep(f: FreeList, count: nat, words: seq<nat>, k: nat)
    requires count > 0 && f != map[] && k == FirstKey(f.Keys)
    ensures f[k] > count ==>
      Prepend(words, Alloc(f, count)) ==
      Prepend(words + Consecutive(k, count), Alloc((f - {k})[k + count := f[k] - count], 0))
    ensures f[k] <= count ==>
      Prepend(words, Alloc(f, count)) ==
      Prepend(words + Consecutive(k, f[k]), Alloc(f - {k}, count - f[k]))
  {
    if f[k] > count {
      assert Consecutive(k, count) + [] == Consecutive(k, count);
      AllocNothing(words + Consecutive(k, count), (f - {k})[k + count := f[k] - count]);
    } else {
      var r := Alloc(f - {k}, count - f[k]);
      if r.Some? {
        assert words + (Consecutive(k, f[k]) + r.value.0) == words + Consecutive(k, f[k]) + r.value.0;
      }
    }
  }

  lemma PutBackOne(f: FreeList, slots: seq<nat>, i: nat)
    requires i < |slots|
    ensures PutBack(f, Elems(slots[..i + 1])) == PutBack(f, Elems(slots[..i]))[slots[i] := 1]
  {
    assert slots[..i + 1] == slots[..i] + [slots[i]];
    assert Elems(slots[..i + 1]) == Elems(slots[..i]) + {slots[i]};
  }

  /** Publishing one more mapping. */
  lemma PutMappingsStep(t: Tables, puts: Puts, p: nat)
    requires p in puts
    ensures
      var u := PutMappings(t, puts - {p});
      var (word, prior) := puts[p];
      PutMappings(t, puts) ==
      u.(current := u.current[p := MarkPrivate(word)],
         gc := if prior == INVALID_SLOT then u.gc else u.gc[prior := t.last])
  {
    hide MarkPrivate, Overwritten, Published, Dropped;
    PublishedStep(puts, p);
    OverwrittenStep(puts, p);
    DroppedStep(Overwritten(puts - {p}), puts[p].1, t.last);
    if puts[p].1 == INVALID_SLOT {
      assert Overwritten(puts) == Overwritten(puts - {p});
    }
    assert t.current + Published(puts - {p})[p := MarkPrivate(puts[p].0)] ==
           (t.current + Published(puts - {p}))[p := MarkPrivate(puts[p].0)];
  }

  lemma PublishedStep(puts: Puts, p: nat)
    requires p in puts
    ensures Published(puts) == Published(puts - {p})[p := MarkPrivate(puts[p].0)]
  {
    hide MarkPrivate;
  }

  lemma DroppedStep(slots: set<nat>, s: nat, round: nat)
    ensures Dropped(slots + {s}, round) == Dropped(slots, round)[s := round]
  {
  }

  lemma OverwrittenStep(puts: Puts, p: nat)
    requires p in puts
    ensures Overwritten(puts) == Overwritten(puts - {p}) + if puts[p].1 == INVALID_SLOT then {} else {puts[p].1}
  {
    var rest: Puts := puts - {p};
    forall s | s in Overwritten(puts) && s != puts[p].1 ensures s in Overwritten(rest) {
      var q :| q in puts && puts[q].1 != INVALID_SLOT && puts[q].1 == s;
      assert q in rest && rest[q] == puts[q];
    }
    forall s | s in Overwritten(rest) ensures s in Overwritten(puts) {
      var q :| q in rest && rest[q].1 != INVALID_SLOT && rest[q].1 == s;
      assert q in puts && puts[q] == rest[q];
    }
  }

  lemma PutNothing(t: Tables)
    ensures PutMappings(t, map[]) == t
  {
  }

  lemma FreezeNothing(t: Table)
    requires t == map[]
    ensures Freeze(t) == map[]
  {
  }

  lemma FreezeKeys(t: Table)
    ensures Freeze(t).Keys == t.Keys
  {
  }

  lemma FreezeStep(t: Table, todo: set<nat>, key: nat)
    requires key in t && key in todo
    ensures Freeze(t - (todo - {key})) == Freeze(t - todo)[key := Share(t[key])]
    ensures key !in Freeze(t - todo)
  {
    hide Share;
    assert t - (todo - {key}) == (t - todo)[key := t[key]];
  }

  /** Walks the current table once: shares its words, and copies them into the round's table. */
  method FreezeInto(before: Table, base: Table) returns (after: Table, table: Table)
    ensures after == Freeze(before)
    ensures table == base + Freeze(before)
  {
    hide Freeze, IsShared, Share;
    var todo := before.Keys;
    after, table := before, base;
    FreezeNothing(before - todo);
    ghost var done: Table := Freeze(before - todo);
    while todo != {}
      invariant todo <= before.Keys
      invariant done == Freeze(before - todo)
      invariant table == base + done && after == before + done
      decreases |todo|
    {
      var key :| key in todo;
      var val := before[key];
      FreezeStep(before, todo, key);
      ShareIs(val);
      AddKey(base, done, key, Share(val));
      AddKey(before, done, key, Share(val));
      if !IsShared(val) {
        val := val % TAG;
        after := after[key := val];
      }
      table := table[key := val];
      todo, done := todo - {key}, done[key := Share(before[key])];
    }
    assert before - todo == before;
    FreezeKeys(before);
  }

  lemma AddKey(a: Table, b: Table, key: nat, w: Word)
    ensures a + b[key := w] == (a + b)[key := w]
    ensures key in a && key !in b && a[key] == w ==> a + b[key := w] == a + b
  {
  }

  lemma ShareIs(w: Word)
    ensures Share(w) == if IsShared(w) then w else w % TAG
  {
  }

  lemma PutBackStep(f: FreeList, words: set<nat>, w: nat)
    ensures PutBack(f, words + {w}) == PutBack(f, words)[w := 1]
  {
  }

  lemma PutBackNothing(f: FreeList, words: set<nat>)
    requires words == {}
    ensures PutBack(f, words) == f
  {
  }

  lemma NoPrivateWords(t: Table)
    requires t == map[]
    ensures PrivateWords(t) == {}
  {
  }

  /** The completed rounds to drop. */
  method RoundsBelow(rounds: map<nat, Table>, maxToKeep: nat) returns (drop: set<nat>)
    ensures forall r :: r in drop <==> r in rounds && r < maxToKeep
  {
    var order := CursorOrder(rounds.Keys);
    hide CursorOrder;
    drop := {};
    for i := 0 to |order|
      invariant forall r :: r in drop <==> r in order[..i] && r < maxToKeep
    {
      assert order[..i + 1] == order[..i] + [order[i]];
      if order[i] < maxToKeep {
        drop := drop + {order[i]};
      }
    }
    assert order[..|order|] == order;
  }

  /** The slots whose dropped-at round is below the bound. */
  method ExpiringSlots(ghost t: Tables, gc: map<nat, nat>, maxToKeep: nat) returns (freed: set<nat>)
    requires gc == t.gc
    ensures freed == Expiring(t, maxToKeep)
  {
    var order := CursorOrder(gc.Keys);
    hide CursorOrder;
    freed := {};
    for i := 0 to |order|
      invariant forall s :: s in freed <==> s in order[..i] && gc[s] < maxToKeep
    {
      assert order[..i + 1] == order[..i] + [order[i]];
      if gc[order[i]] < maxToKeep {
        freed := freed + {order[i]};
      }
    }
    assert order[..|order|] == order;
  }

  class SlotMgr {
    const nrSlots: nat
    var free: FreeList
    var current: Table
    var rounds: map<nat, Table>
    var gc: map<nat, nat>
    var last: nat
    var checkpointed: nat

    ghost function State(): Tables
      reads this
    {
      Tables(nrSlots, free, current, rounds, gc, last, checkpointed)
    }

    constructor (slots: nat)
      ensures State() == Fresh(slots) && last == checkpointed == 0
    {
      nrSlots := slots;
      free, current, rounds, gc := map[0 := slots], map[], map[], map[];
      last, checkpointed := 0, 0;
    }

    /** Takes `count` words off the free list; on None the transaction is abandoned. */
    method AllocFreeSlots(count: nat) returns (r: Option<seq<nat>>)
      modifies this`free
      ensures match Alloc(old(free), count)
        case None => r == None && free == old(free)
        case Some((words, left)) => r == Some(words) && free == left
    {
      hide Alloc, Prepend;
      var txn, want := free, count;
      var slots: seq<nat> := [];
      PrependNothing(Alloc(free, count));
      while want > 0
        invariant Prepend(slots, Alloc(txn, want)) == Alloc(free, count)
        invariant free == old(free)
        decreases want, |txn|
      {
        if txn == map[] {
          AllocEmpty(slots, want);
          return None;
        }
        var start := FirstKey(txn.Keys);
        var available := txn[start];
        AllocStep(txn, want, slots, start);
        var rest: FreeList := txn - {start};
        assert rest.Keys == txn.Keys - {start};
        var got := if available > want then want else available;
        if available > want {
          rest := rest[start + want := available - want];
        }
        ghost var before := slots;
        for i := start to start + got
          invariant slots == before + Consecutive(start, i - start)
        {
          assert Consecutive(start, i + 1 - start) == Consecutive(start, i - start) + [i];
          slots := slots + [i];
        }
        txn, want := rest, want - got;
      }
      AllocNothing(slots, txn);
      free := txn;
      return Some(slots);
    }

    /** Returns words that were allocated and not used. */
    method FreeUnusedSlots(slots: seq<nat>)
      modifies this`free
      ensures free == PutBack(old(free), Elems(slots))
    {
      for i := 0 to |slots|
        invariant free == PutBack(old(free), Elems(slots[..i]))
      {
        PutBackOne(old(free), slots, i);
        free := free[slots[i] := 1];
      }
      assert slots[..|slots|] == slots;
    }

    method UpdateMappings(logical: nat, physical: nat, overwritten: nat)
      modifies this`current, this`gc
      ensures current == old(current)[logical := MarkPrivate(physical)]
      ensures gc == if overwritten == INVALID_SLOT then old(gc) else old(gc)[overwritten := last]
    {
      if overwritten != INVALID_SLOT {
        gc := gc[overwritten := last];
      }
      current := current[logical := MarkPrivate(physical)];
    }

    /** Publishes mappings, in whatever order the table of them is walked. */
    method PutAllMappings(puts: Puts)
      modifies this`current, this`gc
      ensures State() == PutMappings(old(State()), puts)
    {
      hide PutMappings, MarkPrivate;
      var todo := puts.Keys;
      assert puts - todo == map[];
      assert PutMappings(State(), puts - todo) == State() by { PutNothing(State()); }
      while todo != {}
        invariant todo <= puts.Keys
        invariant State() == PutMappings(old(State()), puts - todo)
        decreases |todo|
      {
        var p :| p in todo;
        var rest := todo - {p};
        assert puts - rest - {p} == puts - todo;
        PutMappingsStep(old(State()), puts - rest, p);
        UpdateMappings(p, puts[p].0, puts[p].1);
        todo := rest;
      }
      assert puts - todo == puts;
    }

    /** Freezes the current table as the table of the round and marks everything in it shared. */
    method EndOfRound(round: nat)
      modifies this`current, this`rounds, this`last
      ensures State() == EndRound(old(State()), round)
    {
      var frozen, table := FreezeInto(current, Opened(rounds, round));
      current := frozen;
      rounds := rounds[round := table];
      last := round;
    }

    method TakeCheckpoint()
      modifies this`checkpointed
      ensures State() == Checkpoint(old(State())) && checkpointed == last
    {
      checkpointed := last;
    }

    /** What opening the store again does. */
    method Recover()
      modifies this`last
      ensures State() == Reopen(old(State()))
    {
      last := checkpointed;
    }

    /** Drops the rounds below the bound and frees the slots that expire with them. */
    method RemoveRoundsBelow(maxToKeep: nat)
      modifies this`free, this`rounds
      ensures State() == RemoveBelow(old(State()), maxToKeep)
    {
      var drop := RoundsBelow(rounds, maxToKeep);
      var freed := ExpiringSlots(State(), gc, maxToKeep);
      free := PutBack(free, freed);
      rounds := rounds - drop;
      assert rounds == Kept(old(rounds), maxToKeep);
    }

    /** Forgets the current table; its private words go to the free list as they are. */
    method Clear()
      modifies this`free, this`current
      ensures State() == ClearCurrent(old(State()))
    {
      hide PrivateWords, PutBack, IsShared;
      var todo := current.Keys;
      NoPrivateWords(current - todo);
      PutBackNothing(free, PrivateWords(current - todo));
      while todo != {}
        invariant todo <= current.Keys
        invariant current == old(current)
        invariant free == PutBack(old(free), PrivateWords(current - todo))
        decreases |todo|
      {
        var p :| p in todo;
        PrivateStep(current, todo, p);
        if !IsShared(current[p]) {
          PutBackStep(old(free), PrivateWords(current - todo), current[p]);
          free := free[current[p] := 1];
        }
        todo := todo - {p};
      }
      assert current - todo == current;
      current := map[];
    }

    method GetCurrentRoundMappings() returns (rs: seq<Range>)
      requires INVALID_SLOT !in current
      ensures Canonical(rs, current)
    {
      rs := GetMappings(current);
    }

    /** None when there is no such round: opening its table fails. */
    method GetMappingsForRound(round: nat) returns (rs: Option<seq<Range>>)
      requires forall r :: r in rounds ==> INVALID_SLOT !in rounds[r]
      ensures rs.Some? <==> round in rounds
      ensures rs.Some? ==> Canonical(rs.value, rounds[round])
    {
      if round !in rounds {
        return None;
      }
      var found := GetMappings(rounds[round]);
      return Some(found);
    }

    /** The round numbers in ascending order. */
    method GetCompletedRounds() returns (rs: seq<nat>)
      ensures Ascending(rs) && forall r :: r in rs <==> r in rounds
    {
      rs := CursorOrder(rounds.Keys);
    }
  }

  lemma PrivateStep(t: Table, todo: set<nat>, p: nat)
    requires p in todo && p in t
    ensures PrivateWords(t - (todo - {p})) ==
      PrivateWords(t - todo) + if IsShared(t[p]) then {} else {t[p]}
  {
    var a, b := t - todo, t - (todo - {p});
    assert b == a[p := t[p]];
    forall w | w in PrivateWords(b) ensures w in PrivateWords(a) || (!IsShared(t[p]) && w == t[p]) {
      var q :| q in b && !IsShared(b[q]) && b[q] == w;
      assert q == p || (q in a && a[q] == w);
    }
    forall w | w in PrivateWords(a) ensures w in PrivateWords(b) {
      var q :| q in a && !IsShared(a[q]) && a[q] == w;
      assert q in b && b[q] == w;
    }
    if !IsShared(t[p]) { assert p in b && b[p] == t[p]; }
  }
}

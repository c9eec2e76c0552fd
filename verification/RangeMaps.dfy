/** Run-length compressed mapping tables: how a table is compressed when a map is created, and how
    one page is looked up in the compressed form. */
module RangeMaps {
  import opened SlotWords
  import opened SortedTables

  /** Logical page to word. */
  type Table = map<nat, Word>

  datatype Range = Range(logical: nat, physical: nat, len: nat)

  /** Range number i holds page p. */
  predicate At(rs: seq<Range>, i: int, p: nat) {
    0 <= i < |rs| && rs[i].logical <= p < rs[i].logical + rs[i].len
  }

  function Image(r: Range, p: nat): nat
    requires r.logical <= p
  {
    r.physical + (p - r.logical)
  }

  /** No word of the table is the invalid one, and no slot is next to the tag bit. */
  ghost predicate Proper(t: Table) {
    forall p :: p in t ==> t[p] != INVALID_SLOT && SlotOf(t[p]) < SLOT_BOUND
  }

  /** Every page of every range is mapped as the range says, and every mapped page is in a range. */
  ghost predicate Expands(rs: seq<Range>, t: Table) {
    && (forall i, p {:trigger At(rs, i, p)} :: At(rs, i, p) ==> p in t && t[p] == Image(rs[i], p))
    && (forall p :: p in t ==> exists i :: At(rs, i, p))
  }

  ghost predicate SortedDisjoint(rs: seq<Range>) {
    && (forall i :: 0 <= i < |rs| ==> rs[i].len > 0)
    && (forall i, j :: 0 <= i < j < |rs| ==> rs[i].logical + rs[i].len <= rs[j].logical)
  }

  /** One range could have been continued by the next. */
  predicate Joins(a: Range, b: Range) {
    a.logical + a.len == b.logical && a.physical + a.len == b.physical
  }

  ghost predicate Maximal(rs: seq<Range>) {
    forall i :: 0 <= i < |rs| - 1 ==> !Joins(rs[i], rs[i + 1])
  }

  ghost predicate Canonical(rs: seq<Range>, t: Table) {
    SortedDisjoint(rs) && Maximal(rs) && Expands(rs, t)
  }

  /** The part of the table whose keys the cursor has passed. */
  ghost function Restrict(t: Table, ks: seq<nat>): Table {
    map p | p in t && p in ks :: t[p]
  }

  /** One more entry: it continues the last range or starts a new one. */
  function Push(rs: seq<Range>, key: nat, val: Word): seq<Range> {
    var n := |rs| - 1;
    if rs != [] && Joins(rs[n], Range(key, val, 1)) then rs[..n] + [rs[n].(len := rs[n].len + 1)]
    else rs + [Range(key, val, 1)]
  }

  function Compress(t: Table, keys: seq<nat>): seq<Range>
    requires forall k :: k in keys ==> k in t
  {
    if keys == [] then [] else
      var n := |keys| - 1;
      Push(Compress(t, keys[..n]), keys[n], t[keys[n]])
  }

  /** Compresses a table read through a cursor. */
  method GetMappings(t: Table) returns (rs: seq<Range>)
    requires INVALID_SLOT !in t
    ensures Canonical(rs, t)
  {
    var keys := CursorOrder(t.Keys);
    rs := CompressEntries(t, keys);
    CompressCanonical(t, keys);
    assert Restrict(t, keys) == t;
  }

  method CompressEntries(t: Table, keys: seq<nat>) returns (rs: seq<Range>)
    requires forall k :: k in keys ==> k in t && k != INVALID_SLOT
    ensures rs == Compress(t, keys)
  {
    rs := [];
    var logical, physical, len := INVALID_SLOT, INVALID_SLOT, 0;
    for i := 0 to |keys|
      invariant i == 0 ==> logical == INVALID_SLOT && len == 0 && rs == []
      invariant i > 0 ==> logical != INVALID_SLOT && len > 0
      invariant i > 0 ==> rs + [Range(logical, physical, len)] == Compress(t, keys[..i])
    {
      var key, val := keys[i], t[keys[i]];
      assert keys[..i + 1][..i] == keys[..i];
      if logical == INVALID_SLOT {
        logical, physical, len := key, val, 1;
      } else if key == logical + len && val == physical + len {
        len := len + 1;
      } else {
        rs := rs + [Range(logical, physical, len)];
        logical, physical, len := key, val, 1;
      }
    }
    assert keys[..|keys|] == keys;
    if len > 0 {
      rs := rs + [Range(logical, physical, len)];
    }
  }

  lemma {:induction false} CompressCanonical(t: Table, keys: seq<nat>)
    requires Ascending(keys) && forall k :: k in keys ==> k in t
    ensures Canonical(Compress(t, keys), Restrict(t, keys))
  {
    if keys != [] {
      var n := |keys| - 1;
      var init, key := keys[..n], keys[n];
      CompressCanonical(t, init);
      RestrictStep(t, keys);
      PushCanonical(Compress(t, init), Restrict(t, init), key, t[key]);
    }
  }

  /** The cursor's last step adds one key, larger than all before it. */
  lemma RestrictStep(t: Table, keys: seq<nat>)
    requires Ascending(keys) && keys != [] && keys[|keys| - 1] in t
    ensures var n := |keys| - 1;
      && Restrict(t, keys) == Restrict(t, keys[..n])[keys[n] := t[keys[n]]]
      && forall p :: p in Restrict(t, keys[..n]) ==> p < keys[n]
  {
    var n := |keys| - 1;
    assert keys == keys[..n] + [keys[n]];
  }

  /** Entering a key larger than all before it keeps the ranges canonical. */
  lemma PushCanonical(rs: seq<Range>, t: Table, key: nat, val: Word)
    requires Canonical(rs, t) && forall p :: p in t ==> p < key
    ensures Canonical(Push(rs, key, val), t[key := val])
  {
    hide Expands, SortedDisjoint;
    var n := |rs| - 1;
    if rs != [] && Joins(rs[n], Range(key, val, 1)) {
      assert rs == rs[..n] + [rs[n]];
      ExtendExpands(rs[..n], rs[n], t, t[key := val]);
      ExtendShape(rs[..n], rs[n]);
    } else {
      NextExpands(rs, t, key, val);
    }
  }

  lemma ExtendShape(rs: seq<Range>, r: Range)
    requires SortedDisjoint(rs + [r]) && Maximal(rs + [r])
    ensures SortedDisjoint(rs + [r.(len := r.len + 1)]) && Maximal(rs + [r.(len := r.len + 1)])
  {
    var a, b := rs + [r], rs + [r.(len := r.len + 1)];
    assert forall j :: 0 <= j < |rs| ==> a[j] == b[j];
    forall j | 0 <= j < |b| - 1 ensures !Joins(b[j], b[j + 1]) {
      assert !Joins(a[j], a[j + 1]);
    }
  }

  lemma ExtendExpands(rs: seq<Range>, r: Range, t: Table, u: Table)
    requires Expands(rs + [r], t)
    requires var w := r.physical + r.len; w < WORDS && u == t[r.logical + r.len := w]
    requires forall p :: p in t ==> p < r.logical + r.len
    ensures Expands(rs + [r.(len := r.len + 1)], u)
  {
    var a, b := rs + [r], rs + [r.(len := r.len + 1)];
    forall p | p in u ensures exists j :: At(b, j, p) {
      if p == r.logical + r.len {
        assert At(b, |rs|, p);
      } else {
        var j :| At(a, j, p);
        assert At(b, j, p);
      }
    }
    forall j, p | At(b, j, p) ensures p in u && u[p] == Image(b[j], p) {
      if p != r.logical + r.len || j < |rs| {
        assert At(a, j, p);
      }
    }
  }

  lemma NextExpands(rs: seq<Range>, t: Table, key: nat, val: Word)
    requires SortedDisjoint(rs) && Expands(rs, t) && forall p :: p in t ==> p < key
    ensures SortedDisjoint(rs + [Range(key, val, 1)]) && Expands(rs + [Range(key, val, 1)], t[key := val])
  {
    var b := rs + [Range(key, val, 1)];
    var u: Table := t[key := val];
    forall j | 0 <= j < |rs| ensures rs[j].logical + rs[j].len <= key {
      assert At(rs, j, rs[j].logical + rs[j].len - 1);
    }
    forall p | p in u ensures exists j :: At(b, j, p) {
      if p == key {
        assert At(b, |rs|, p);
      } else {
        var j :| At(rs, j, p);
        assert At(b, j, p);
      }
    }
    forall j, p | At(b, j, p) ensures p in u && u[p] == Image(b[j], p) {
      if j < |rs| { assert At(rs, j, p); }
    }
  }

  /** The compressed form of a table is unique: the fewest ranges, in one order. */
  lemma {:induction false} CanonicalUnique(a: seq<Range>, b: seq<Range>, t: Table)
    requires Canonical(a, t) && Canonical(b, t)
    ensures a == b
  {
    hide Canonical;
    BothEmpty(a, b, t);
    BothEmpty(b, a, t);
    if a != [] {
      FirstStarts(a, b, t);
      FirstStarts(b, a, t);
      FirstNotShorter(a, b, t);
      FirstNotShorter(b, a, t);
      var rest: Table := map p | p in t && !At(a, 0, p) :: t[p];
      assert rest == map p | p in t && !At(b, 0, p) :: t[p];
      DropFirst(a, t, rest);
      DropFirst(b, t, rest);
      CanonicalUnique(a[1..], b[1..], rest);
      assert a == [a[0]] + a[1..] && b == [b[0]] + b[1..];
    }
  }

  lemma BothEmpty(a: seq<Range>, b: seq<Range>, t: Table)
    requires Canonical(a, t) && Canonical(b, t)
    ensures a != [] ==> b != []
  {
    if a != [] {
      assert At(a, 0, a[0].logical);
      var i :| At(b, i, a[0].logical);
    }
  }

  lemma FirstStarts(a: seq<Range>, b: seq<Range>, t: Table)
    requires Canonical(a, t) && Canonical(b, t) && a != [] && b != []
    ensures a[0].logical <= b[0].logical
    ensures b[0].logical in t && t[b[0].logical] == b[0].physical
  {
    assert At(b, 0, b[0].logical);
    var i :| At(a, i, b[0].logical);
    assert i > 0 ==> a[0].logical + a[0].len <= a[i].logical;
  }

  /** Just past its end the first range is not continued. */
  lemma AfterFirst(a: seq<Range>, t: Table)
    requires Canonical(a, t) && a != [] && a[0].logical + a[0].len in t
    ensures t[a[0].logical + a[0].len] != a[0].physical + a[0].len
  {
    var p := a[0].logical + a[0].len;
    var i :| At(a, i, p);
    assert a[0].logical + a[0].len <= a[1].logical;
    assert i == 1;
    assert !Joins(a[0], a[0 + 1]);
  }

  lemma FirstNotShorter(a: seq<Range>, b: seq<Range>, t: Table)
    requires Canonical(a, t) && Canonical(b, t) && a != [] && b != []
    requires a[0].logical == b[0].logical && a[0].physical == b[0].physical
    ensures a[0].len >= b[0].len
  {
    if a[0].len < b[0].len {
      assert At(b, 0, a[0].logical + a[0].len);
      AfterFirst(a, t);
    }
  }

  lemma DropFirst(a: seq<Range>, t: Table, rest: Table)
    requires Canonical(a, t) && a != []
    requires rest == map p | p in t && !At(a, 0, p) :: t[p]
    ensures Canonical(a[1..], rest)
  {
    var b := a[1..];
    assert forall i :: 0 <= i < |b| ==> b[i] == a[i + 1];
    forall i | 0 <= i < |b| - 1 ensures !Joins(b[i], b[i + 1]) {
      assert !Joins(a[i + 1], a[i + 1 + 1]);
    }
    forall i, p | At(b, i, p) ensures p in rest && rest[p] == Image(b[i], p) {
      assert At(a, i + 1, p);
      assert a[0].logical + a[0].len <= a[i + 1].logical;
    }
    forall p | p in rest ensures exists i :: At(b, i, p) {
      var i :| At(a, i, p);
      assert i > 0 && At(b, i - 1, p);
    }
  }

  /** A range holds private slots only or shared slots only. */
  lemma RangesDoNotMix(rs: seq<Range>, t: Table, i: nat, p: nat, q: nat)
    requires Canonical(rs, t) && Proper(t) && At(rs, i, p) && At(rs, i, q)
    ensures IsShared(t[p]) <==> IsShared(t[q])
    ensures p <= q ==> SlotOf(t[q]) == SlotOf(t[p]) + (q - p)
  {
    if q < p {
      RangeStaysTagged(rs, i, t, q, p - q);
    } else {
      RangeStaysTagged(rs, i, t, p, q - p);
    }
  }

  lemma {:induction false} RangeStaysTagged(rs: seq<Range>, i: int, t: Table, p: nat, n: nat)
    requires Proper(t)
    requires Expands(rs, t) && At(rs, i, p) && At(rs, i, p + n)
    ensures IsShared(t[p]) <==> IsShared(t[p + n])
    ensures SlotOf(t[p + n]) == SlotOf(t[p]) + n
  {
    if n > 0 {
      RangeStaysTagged(rs, i, t, p, n - 1);
      assert At(rs, i, p + n - 1);
      assert t[p + n] == t[p + n - 1] + 1;
    }
  }

  /** What the table itself says about a page: whether a write must go to a new slot, and the slot
      that is mapped now. */
  function TableInfo(t: Table, p: nat): (r: (bool, nat)) {
    if p in t && t[p] != INVALID_SLOT then (IsShared(t[p]), SlotOf(t[p])) else (true, INVALID_SLOT)
  }

  /** Binary search for the range that holds the page. */
  method GetSlotInfo(rs: seq<Range>, p: nat, ghost t: Table) returns (shared: bool, slot: nat)
    requires SortedDisjoint(rs) && Expands(rs, t)
    ensures (shared, slot) == TableInfo(t, p)
  {
    var pba := INVALID_SLOT;
    var left, right, size := 0, |rs|, |rs|;
    var found := false;
    while left < right && !found
      invariant 0 <= left <= right <= |rs| && size == right - left
      invariant !found ==> pba == INVALID_SLOT
      invariant !found ==> forall i :: At(rs, i, p) ==> left <= i < right
      invariant found ==> p in t && pba == t[p]
      decreases right - left, !found
    {
      var mid := left + size / 2;
      if p < rs[mid].logical {
        assert forall i :: mid <= i < |rs| ==> rs[mid].logical <= rs[i].logical;
        right := mid;
      } else if p >= rs[mid].logical + rs[mid].len {
        assert forall i :: 0 <= i < mid ==> rs[i].logical + rs[i].len <= rs[mid].logical;
        left := mid + 1;
      } else {
        assert At(rs, mid, p);
        found, pba := true, rs[mid].physical + p - rs[mid].logical;
      }
      size := right - left;
    }
    shared := IsShared(pba);
    slot := if pba == INVALID_SLOT then INVALID_SLOT else SlotOf(pba);
  }

  /** One past the last mapped page; nothing for an empty table. */
  method GetLastSlot(rs: seq<Range>, ghost t: Table) returns (found: bool, end: nat)
    requires SortedDisjoint(rs) && Expands(rs, t)
    ensures found <==> t != map[]
    ensures found ==> end > 0 && end - 1 in t && forall p :: p in t ==> p < end
  {
    found, end := rs != [], 0;
    if rs != [] {
      var r := rs[|rs| - 1];
      end := r.logical + r.len;
      assert At(rs, |rs| - 1, end - 1);
      forall p | p in t ensures p < end {
        var i :| At(rs, i, p);
        assert i < |rs| - 1 ==> rs[i].logical + rs[i].len <= r.logical;
      }
    }
  }
}

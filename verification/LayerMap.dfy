/** A file system as a flat map from paths to entries, and what flattening a layer does to it. */
module LayerMap {
  import opened Basics
  import opened PathNames

  datatype Meta = Meta(mode: nat, uid: nat, gid: nat, userName: string, groupName: string)

  datatype Entry =
    | Dir(meta: Meta)
    | Link(meta: Meta, target: string)
    | Reg(meta: Meta, contents: seq<byte>)

  type FlatFs = map<Path, Entry>

  const ROOT_ENTRY: Entry := Dir(Meta(0x1ED, 0, 0, "root", "root"))

  function EmptyFs(): FlatFs { map[[] := ROOT_ENTRY] }

  predicate IsDir(m: FlatFs, p: Path) { p in m && m[p].Dir? }

  function Parent(p: Path): Path
    requires p != []
  {
    p[..|p| - 1]
  }

  predicate Whiteout(name: string) { ".wh." <= name }

  /** Prefix-closed: every path but the root's lies in a directory. Names can be archived and are no
      whiteouts. */
  ghost predicate WellFormed(m: FlatFs) {
    && IsDir(m, [])
    && (forall p :: p in m && p != [] ==> IsDir(m, Parent(p)))
    && (forall p :: p in m ==> GoodPath(p))
  }

  predicate GoodPath(p: Path) {
    forall i :: 0 <= i < |p| ==> ProperName(p[i]) && !Whiteout(p[i])
  }

  // ----- the operations; None is an exception, after which nothing has changed -----

  /** Everything but the subtree at p. */
  function Without(m: FlatFs, p: Path): FlatFs {
    map q | q in m && !(p <= q) :: m[q]
  }

  function AddDir(m: FlatFs, dir: Path, name: string, meta: Meta): Option<FlatFs> {
    var p := dir + [name];
    if !IsDir(m, dir) then None
    else if p in m && !m[p].Dir? then None
    else Some(m[p := Dir(meta)])
  }

  /** Files and links replace whatever was there. */
  function AddLeaf(m: FlatFs, dir: Path, name: string, e: Entry): Option<FlatFs> {
    var p := dir + [name];
    if !IsDir(m, dir) then None else Some(Without(m, p)[p := e])
  }

  function Unlink(m: FlatFs, dir: Path, name: string): Option<FlatFs> {
    var p := dir + [name];
    if !IsDir(m, dir) || p !in m then None else Some(Without(m, p))
  }

  function ClearDir(m: FlatFs, p: Path): Option<FlatFs> {
    if !IsDir(m, p) then None else Some(map q | q in m && !(p < q) :: m[q])
  }

  function Chmod(m: FlatFs, p: Path, mode: nat): Option<FlatFs> {
    if p !in m then None else Some(m[p := m[p].(meta := m[p].meta.(mode := mode))])
  }

  // ----- layers -----

  datatype Kind = DirType | RegType | LinkType | OtherType

  /** An archive member; hard and symbolic links are one kind. */
  datatype Member = Member(path: string, kind: Kind, meta: Meta, linkName: string, contents: seq<byte>)

  const OPAQUE: string := ".wh..wh..opq"

  function Process(m: FlatFs, e: Member): Option<FlatFs> {
    var base, dir := Basename(e.path), Dirname(e.path);
    if base == OPAQUE then ClearDir(m, Parts(dir))
    else if Whiteout(base) then
      var target := JoinPath(dir, base[4..]);
      Unlink(m, Parts(Dirname(target)), Basename(target))
    else match e.kind
      case DirType => AddDir(m, Parts(dir), base, e.meta)
      case RegType => AddLeaf(m, Parts(dir), base, Reg(e.meta, e.contents))
      case LinkType => AddLeaf(m, Parts(dir), base, Link(e.meta, e.linkName))
      case OtherType => None
  }

  function ProcessAll(m: FlatFs, es: seq<Member>): Option<FlatFs>
    decreases |es|
  {
    if es == [] then Some(m) else
      match ProcessAll(m, es[..|es| - 1])
      case None => None
      case Some(before) => Process(before, es[|es| - 1])
  }

  /** Archive readers strip trailing slashes, so a member's path ends in a name. */
  predicate Named(e: Member) { Basename(e.path) != "" }

  // ----- what each operation keeps and changes -----

  lemma {:induction false} PrefixesPresent(m: FlatFs, p: Path, q: Path)
    requires WellFormed(m) && q in m && p <= q
    ensures p in m && (p != q ==> IsDir(m, p))
    decreases |q|
  {
    if p != q {
      assert p <= Parent(q);
      PrefixesPresent(m, p, Parent(q));
    }
  }

  lemma WithoutWellFormed(m: FlatFs, p: Path)
    requires WellFormed(m) && p != []
    ensures WellFormed(Without(m, p))
  {
    var u := Without(m, p);
    forall q | q in u && q != [] ensures IsDir(u, Parent(q)) {
      assert IsDir(m, Parent(q)) && Parent(q) <= q;
      assert !(p <= Parent(q));
    }
  }

  lemma GoodChild(dir: Path, name: string)
    requires GoodPath(dir) && ProperName(name) && !Whiteout(name)
    ensures GoodPath(dir + [name])
  {
  }

  lemma AddDirKeeps(m: FlatFs, dir: Path, name: string, meta: Meta)
    requires WellFormed(m) && ProperName(name) && !Whiteout(name)
    ensures var r := AddDir(m, dir, name, meta);
      && (r.Some? ==> WellFormed(r.value) && r.value.Keys == m.Keys + {dir + [name]})
      && (r.Some? ==> r.value[dir + [name]] == Dir(meta))
      && (r.Some? ==> forall q :: q in m && q != dir + [name] ==> r.value[q] == m[q])
  {
    var r := AddDir(m, dir, name, meta);
    if r.Some? {
      var p, u := dir + [name], r.value;
      GoodChild(dir, name);
      assert Parent(p) == dir && dir != p;
      forall q | q in u && q != [] ensures IsDir(u, Parent(q)) {
        assert q == p || IsDir(m, Parent(q));
      }
    }
  }

  /** A file or link takes the place of the whole subtree it replaces and leaves the rest alone. */
  lemma AddLeafKeeps(m: FlatFs, dir: Path, name: string, e: Entry)
    requires WellFormed(m) && ProperName(name) && !Whiteout(name) && !e.Dir?
    ensures var r := AddLeaf(m, dir, name, e); var p := dir + [name];
      && (r.Some? ==> WellFormed(r.value) && p in r.value && r.value[p] == e)
      && (r.Some? ==> forall q :: q in r.value <==> q == p || (q in m && !(p <= q)))
      && (r.Some? ==> forall q :: q in m && !(p <= q) ==> r.value[q] == m[q])
  {
    var r := AddLeaf(m, dir, name, e);
    if r.Some? {
      var p, u := dir + [name], r.value;
      WithoutWellFormed(m, p);
      GoodChild(dir, name);
      assert Parent(p) == dir && !(p <= dir);
      forall q | q in u && q != [] ensures IsDir(u, Parent(q)) {
        if q != p { assert IsDir(Without(m, p), Parent(q)); }
      }
    }
  }

  lemma ClearDirKeeps(m: FlatFs, p: Path)
    requires WellFormed(m) && IsDir(m, p)
    ensures var u := ClearDir(m, p).value;
      && WellFormed(u)
      && (forall q :: q in u <==> q in m && !(p < q))
      && forall q :: q in u ==> u[q] == m[q]
  {
    var u := ClearDir(m, p).value;
    forall q | q in u && q != [] ensures IsDir(u, Parent(q)) {
      assert IsDir(m, Parent(q)) && Parent(q) <= q;
    }
  }

  lemma ChmodKeeps(m: FlatFs, p: Path, mode: nat)
    requires WellFormed(m) && p in m
    ensures WellFormed(Chmod(m, p, mode).value)
  {
    var u := Chmod(m, p, mode).value;
    forall q | q in u && q != [] ensures IsDir(u, Parent(q)) {
      assert IsDir(m, Parent(q));
    }
  }

  /** A whiteout names its target in the same directory. */
  lemma WhiteoutTarget(e: Member)
    requires Whiteout(Basename(e.path))
    ensures var target := JoinPath(Dirname(e.path), Basename(e.path)[4..]);
      Basename(target) == Basename(e.path)[4..] && Parts(Dirname(target)) == Parts(Dirname(e.path))
  {
    SplitJoined(Dirname(e.path), Basename(e.path)[4..]);
  }

  /** What a member needs: its directory; for a whiteout, the entry it removes; for a directory, that
      nothing else has its path; and a known kind. */
  predicate Applicable(m: FlatFs, e: Member) {
    var base, dir := Basename(e.path), Parts(Dirname(e.path));
    && IsDir(m, dir)
    && (if base == OPAQUE then true
        else if Whiteout(base) then dir + [base[4..]] in m
        else if e.kind.DirType? then dir + [base] in m ==> m[dir + [base]].Dir?
        else !e.kind.OtherType?)
  }

  lemma ProcessExact(m: FlatFs, e: Member)
    ensures Process(m, e).Some? <==> Applicable(m, e)
  {
    hide Basename, Dirname, Parts;
    if Whiteout(Basename(e.path)) {
      WhiteoutTarget(e);
    }
  }

  /** The k-th member can be applied to what the ones before it made. */
  ghost predicate AppliesAt(m: FlatFs, es: seq<Member>, k: nat)
    requires k < |es|
  {
    var before := ProcessAll(m, es[..k]);
    before.Some? && Applicable(before.value, es[k])
  }

  lemma AppliesEarlier(m: FlatFs, es: seq<Member>, n: nat, k: nat)
    requires k < n <= |es|
    ensures AppliesAt(m, es[..n], k) <==> AppliesAt(m, es, k)
  {
    hide ProcessAll, Applicable;
    assert es[..n][..k] == es[..k];
  }

  ghost predicate AllApply(m: FlatFs, es: seq<Member>) {
    forall k :: 0 <= k < |es| ==> AppliesAt(m, es, k)
  }

  /** A layer can be applied exactly when each of its members can, in turn. */
  lemma {:induction false} ProcessAllExact(m: FlatFs, es: seq<Member>)
    ensures ProcessAll(m, es).Some? <==> AllApply(m, es)
  {
    if es != [] {
      hide Process, AllApply, AppliesAt;
      ProcessAllExact(m, es[..|es| - 1]);
      LastApplies(m, es);
      AllApplyStep(m, es);
    }
  }

  lemma AllApplyStep(m: FlatFs, es: seq<Member>)
    requires es != []
    ensures var n := |es| - 1; AllApply(m, es) <==> AllApply(m, es[..n]) && AppliesAt(m, es, n)
  {
    hide AppliesAt;
    var n := |es| - 1;
    forall k | 0 <= k < n ensures AppliesAt(m, es[..n], k) <==> AppliesAt(m, es, k) {
      AppliesEarlier(m, es, n, k);
    }
  }

  lemma LastApplies(m: FlatFs, es: seq<Member>)
    requires es != []
    ensures var n := |es| - 1;
      && (ProcessAll(m, es).Some? <==> AppliesAt(m, es, n))
      && (AppliesAt(m, es, n) ==> ProcessAll(m, es[..n]).Some?)
  {
    hide Process, Applicable;
    var before := ProcessAll(m, es[..|es| - 1]);
    if before.Some? { ProcessExact(before.value, es[|es| - 1]); }
  }

  /** Members one after the other. */
  lemma {:induction false} ProcessJoined(m: FlatFs, a: seq<Member>, b: seq<Member>)
    ensures ProcessAll(m, a + b) == match ProcessAll(m, a) case None => None case Some(u) => ProcessAll(u, b)
  {
    hide Process;
    if b == [] {
      assert a + b == a;
    } else {
      var n := |b| - 1;
      ProcessJoined(m, a, b[..n]);
      assert (a + b)[..|a| + n] == a + b[..n] && (a + b)[|a| + n] == b[n];
    }
  }

  // ----- what a member decides -----

  function At(m: FlatFs, q: Path): Option<Entry> { if q in m then Some(m[q]) else None }

  /** The path a member is for: the one it names, or for a whiteout the one it removes. */
  function Place(e: Member): Path {
    var base, dir := Basename(e.path), Parts(Dirname(e.path));
    if base == OPAQUE then dir else if Whiteout(base) then dir + [base[4..]] else dir + [base]
  }

  lemma PlaceIsPath(e: Member)
    requires Named(e) && !Whiteout(Basename(e.path))
    ensures Place(e) == Parts(e.path)
  {
    hide Parts, Basename, Dirname;
    SplitParts(e.path);
  }

  /** The paths whose entries a member replaces or removes: a directory its own, a file, a link or a whiteout
      the whole subtree, an opaque whiteout all below its directory. */
  predicate Decides(e: Member, q: Path) {
    var base, p := Basename(e.path), Place(e);
    if base == OPAQUE then p < q
    else if !Whiteout(base) && e.kind.DirType? then p == q
    else p <= q
  }

  /** An entry of the member's kind, with its metadata, link name and contents. */
  predicate Stores(e: Member, x: Entry) {
    && x.meta == e.meta
    && (match e.kind
        case DirType => x.Dir?
        case RegType => x.Reg? && x.contents == e.contents
        case LinkType => x.Link? && x.target == e.linkName
        case OtherType => false)
  }

  /** What becomes of a path that the member decides: its own entry at its own path, otherwise nothing. */
  predicate Verdict(e: Member, q: Path, x: Option<Entry>) {
    if Whiteout(Basename(e.path)) || q != Place(e) then x == None else x.Some? && Stores(e, x.value)
  }

  /** A member that applies decides its paths, whatever was there, and leaves all others alone. */
  lemma ProcessDecides(m: FlatFs, e: Member, q: Path)
    requires Process(m, e).Some?
    ensures var u := Process(m, e).value;
      if Decides(e, q) then Verdict(e, q, At(u, q)) else At(u, q) == At(m, q)
  {
    hide Basename, Dirname, Parts;
    var base, dir := Basename(e.path), Parts(Dirname(e.path));
    if base != OPAQUE && Whiteout(base) {
      WhiteoutTarget(e);
    }
  }

  /** What a whiteout removes, and that nothing else changes. */
  lemma WhiteoutRemoves(m: FlatFs, e: Member)
    requires Whiteout(Basename(e.path)) && Process(m, e).Some?
    ensures var u, p := Process(m, e).value, Place(e);
      && (Basename(e.path) == OPAQUE ==> forall q :: q in u <==> q in m && !(p < q))
      && (Basename(e.path) != OPAQUE ==> forall q :: q in u <==> q in m && !(p <= q))
      && forall q :: q in u ==> u[q] == m[q]
  {
    hide Basename, Dirname, Parts, Process, Place;
    var u, p := Process(m, e).value, Place(e);
    forall q ensures q in u <==> q in m && !Decides(e, q)
      ensures q in u ==> u[q] == m[q]
    {
      ProcessDecides(m, e, q);
    }
  }

  /** An entry that is stored is there with all that the member says, whether or not the path was taken. */
  lemma MemberStored(m: FlatFs, e: Member)
    requires !Whiteout(Basename(e.path)) && Process(m, e).Some?
    ensures var u := Process(m, e).value; Place(e) in u && Stores(e, u[Place(e)])
  {
    hide Basename, Place, Process;
    ProcessDecides(m, e, Place(e));
  }

  /** The last member that decides a path. */
  ghost predicate LastDecider(es: seq<Member>, q: Path, k: nat) {
    k < |es| && Decides(es[k], q) && forall j :: k < j < |es| ==> !Decides(es[j], q)
  }

  /** Whatever was there before: after all members, each path is as the last member that decides it says, and
      as before if none does. */
  lemma {:induction false} LastDecides(m: FlatFs, es: seq<Member>, q: Path)
    requires ProcessAll(m, es).Some?
    ensures var x := At(ProcessAll(m, es).value, q);
      && (forall k: nat :: LastDecider(es, q, k) ==> Verdict(es[k], q, x))
      && ((forall k :: 0 <= k < |es| ==> !Decides(es[k], q)) ==> x == At(m, q))
  {
    hide Process, Decides, Verdict, At;
    if es != [] {
      var n := |es| - 1;
      LastDecides(m, es[..n], q);
      ProcessDecides(ProcessAll(m, es[..n]).value, es[n], q);
      forall k: nat | LastDecider(es, q, k) && k != n ensures LastDecider(es[..n], q, k) && !Decides(es[n], q) {}
    }
  }

  /** Processing a member keeps the map prefix-closed, with good names only. */
  lemma ProcessKeeps(m: FlatFs, e: Member)
    requires WellFormed(m) && Named(e) && Process(m, e).Some?
    ensures WellFormed(Process(m, e).value)
    ensures Process(m, e).value[[]] == m[[]]
  {
    hide Basename, Dirname, Parts, WellFormed;
    var base, dir := Basename(e.path), Parts(Dirname(e.path));
    if base == OPAQUE {
      ClearDirKeeps(m, dir);
      assert !(dir < []);
      RootIsDir(m);
    } else if Whiteout(base) {
      WhiteoutTarget(e);
      WithoutWellFormed(m, dir + [base[4..]]);
      RootIsDir(m);
    } else {
      match e.kind
      case DirType => AddDirKeeps(m, dir, base, e.meta); RootIsDir(m);
      case RegType => AddLeafKeeps(m, dir, base, Reg(e.meta, e.contents)); RootIsDir(m);
      case LinkType => AddLeafKeeps(m, dir, base, Link(e.meta, e.linkName)); RootIsDir(m);
      case OtherType =>
    }
  }

  lemma RootIsDir(m: FlatFs)
    requires WellFormed(m)
    ensures [] in m
  {
  }

  lemma {:induction false} ProcessAllKeeps(m: FlatFs, es: seq<Member>)
    requires WellFormed(m) && (forall e :: e in es ==> Named(e)) && ProcessAll(m, es).Some?
    ensures WellFormed(ProcessAll(m, es).value)
    ensures ProcessAll(m, es).value[[]] == m[[]]
  {
    hide WellFormed, Process, Named;
    if es == [] {
      RootIsDir(m);
    } else {
      ProcessAllKeeps(m, es[..|es| - 1]);
      ProcessKeeps(ProcessAll(m, es[..|es| - 1]).value, es[|es| - 1]);
    }
  }

  lemma EmptyWellFormed()
    ensures WellFormed(EmptyFs())
  {
  }
}

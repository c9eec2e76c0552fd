/** Flattening an image and writing it out: the tree is built layer by layer and then archived. */
module TarWriter {
  import opened Basics
  import opened PathNames
  import opened LayerMap
  import opened LayerTree
  import opened TarOrder
  import opened TarArchive

  /** The archive being written. */
  class Archive {
    var members: seq<Member>

    constructor ()
      ensures members == []
    {
      members := [];
    }

    method AddFile(e: Member)
      modifies this
      ensures members == old(members) + [e]
    {
      members := members + [e];
    }
  }

  /** Items of a listing never name the root. */
  ghost predicate NoRoot(items: seq<Item>) {
    forall i :: 0 <= i < |items| ==> items[i].0 != []
  }

  lemma ListedBelow(m: FlatFs, p: Path)
    requires WellFormed(m)
    ensures NoRoot(ListDir(m, p))
  {
    ListDirCovers(m, p);
  }

  lemma {:induction false} NamesNoRoot(m: FlatFs, p: Path, names: seq<string>)
    requires WellFormed(m) && forall n :: n in names ==> p + [n] in m
    ensures NoRoot(ListNames(m, p, names))
    decreases |names|
  {
    if names != [] {
      hide WellFormed, ListDir;
      var q := p + [names[0]];
      NamesNoRoot(m, p, names[1..]);
      ListedBelow(m, q);
    }
  }

  lemma ListNamesStep(m: FlatFs, p: Path, names: seq<string>)
    requires names != [] && forall n :: n in names ==> p + [n] in m
    ensures
      var q := p + [names[0]];
      ListNames(m, p, names) ==
      [(q, m[q])] + (if m[q].Dir? then ListDir(m, q) else []) + ListNames(m, p, names[1..])
  {
    hide ListDir;
    FewerBelow(m, p, p + [names[0]]);
  }

  lemma MembersJoin(a: seq<Item>, b: seq<Item>)
    requires NoRoot(a) && NoRoot(b)
    ensures NoRoot(a + b) && Members(a + b) == Members(a) + Members(b)
  {
    hide MemberOf;
    assert forall i :: 0 <= i < |a + b| ==> (a + b)[i].0 != [];
  }

  lemma MembersOne(x: Item)
    requires x.0 != []
    ensures NoRoot([x]) && Members([x]) == [MemberOf(x)]
  {
  }

  /** The members of one entry and of what is below it. */
  ghost function EntryMembers(m: FlatFs, q: Path): seq<Member>
    requires q in m && q != [] && NoRoot(ListDir(m, q))
  {
    [MemberOf((q, m[q]))] + if m[q].Dir? then Members(ListDir(m, q)) else []
  }

  /** One entry, what is below it, and the rest. */
  lemma MembersStep(m: FlatFs, p: Path, names: seq<string>)
    requires WellFormed(m) && names != [] && forall n :: n in names ==> p + [n] in m
    ensures NoRoot(ListNames(m, p, names)) && NoRoot(ListDir(m, p + [names[0]])) && NoRoot(ListNames(m, p, names[1..]))
    ensures Members(ListNames(m, p, names)) ==
            EntryMembers(m, p + [names[0]]) + Members(ListNames(m, p, names[1..]))
  {
    var q := p + [names[0]];
    var x: Item := (q, m[q]);
    NamesNoRoot(m, p, names);
    NamesNoRoot(m, p, names[1..]);
    ListedBelow(m, q);
    ListNamesStep(m, p, names);
    hide WellFormed, ListNames, ListDir, Members, MemberOf;
    MembersOne(x);
    var inner: seq<Item> := if m[q].Dir? then ListDir(m, q) else [];
    MembersJoin([x], inner);
    MembersJoin([x] + inner, ListNames(m, p, names[1..]));
    NothingListed(m, p);
  }

  /** The member written for an inode. */
  function MemberFor(path: string, meta: Meta, content: Content): Member {
    match content
    case DirContent => Member(path, DirType, meta, "", [])
    case LinkContent(target) => Member(path, LinkType, meta, target, [])
    case RegContent(contents) => Member(path, RegType, meta, "", contents)
  }

  /** Writes everything below a directory, walking the tree with the names of each directory sorted. */
  method AddToTar(fs: FS, prefix: string, dir: Inode, tf: Archive, ghost p: Path)
    requires fs.Valid() && WellFormed(fs.Flat())
    requires p in fs.nodes && fs.nodes[p] == dir && prefix == Prefix(p)
    modifies tf
    ensures NoRoot(ListDir(fs.Flat(), p))
    ensures tf.members == old(tf.members) + Members(ListDir(fs.Flat(), p))
    decreases |Strictly(fs.Flat(), p)|, 2
  {
    hide WellFormed, Linked, Members, ListNames, Prefix;
    ghost var m := fs.Flat();
    var names := SortedNames(dir.entries.Keys);
    EntryNames(fs, p, dir);
    DirNames(m, p, names);
    AddEntries(fs, prefix, dir, names, tf, p, m);
  }

  lemma DirNames(m: FlatFs, p: Path, names: seq<string>)
    requires WellFormed(m) && names == SortedNames(Children(m, p))
    ensures forall n :: n in names ==> p + [n] in m
    ensures ListDir(m, p) == ListNames(m, p, names)
    ensures NoRoot(ListDir(m, p))
  {
    hide WellFormed;
    ListedBelow(m, p);
    forall n | n in names ensures p + [n] in m { ChildrenAre(m, p, n); }
  }

  method AddEntries(fs: FS, prefix: string, dir: Inode, names: seq<string>, tf: Archive, ghost p: Path, ghost m: FlatFs)
    requires fs.Valid() && m == fs.Flat() && WellFormed(m)
    requires p in fs.nodes && fs.nodes[p] == dir && prefix == Prefix(p)
    requires forall n :: n in names ==> p + [n] in m
    requires NoRoot(ListNames(m, p, names))
    modifies tf
    ensures tf.members == old(tf.members) + Members(ListNames(m, p, names))
    decreases |Strictly(m, p)|, 1
  {
    hide WellFormed, Linked, Members, ListNames, Prefix, EntryMembers, ListDir;
    assert names[0..] == names;
    for i := 0 to |names|
      invariant NoRoot(ListNames(m, p, names[i..]))
      invariant tf.members + Members(ListNames(m, p, names[i..])) == old(tf.members) + Members(ListNames(m, p, names))
    {
      assert names[i] in names;
      assert names[i..][0] == names[i] && names[i..][1..] == names[i + 1..];
      MembersStep(m, p, names[i..]);
      AddEntry(fs, prefix, dir, names[i], tf, p);
    }
    assert names[|names|..] == [];
    NothingListed(m, p);
  }

  /** Writes one entry of a directory and everything below it. */
  method AddEntry(fs: FS, prefix: string, dir: Inode, name: string, tf: Archive, ghost p: Path)
    requires fs.Valid() && WellFormed(fs.Flat())
    requires p in fs.nodes && fs.nodes[p] == dir && prefix == Prefix(p) && p + [name] in fs.nodes
    modifies tf
    ensures NoRoot(ListDir(fs.Flat(), p + [name]))
    ensures tf.members == old(tf.members) + EntryMembers(fs.Flat(), p + [name])
    decreases |Strictly(fs.Flat(), p)|, 0
  {
    hide WellFormed, Linked, Members, Prefix, ListDir;
    ghost var m, q := fs.Flat(), p + [name];
    ListedBelow(m, q);
    EntriesLead(fs.Tree(), p, name);
    assert fs.Tree().links[p] == dir.entries;
    var inode := dir.entries[name];
    PrefixSnoc(p, name);
    ArchivedPath(p, name);
    assert m[q] == inode.AsEntry();
    tf.AddFile(MemberFor(prefix + name, inode.meta, inode.content));
    if inode.content.DirContent? {
      FewerBelow(m, p, q);
      AddToTar(fs, prefix + name + "/", inode, tf, q);
    }
  }

  lemma NothingListed(m: FlatFs, p: Path)
    ensures ListNames(m, p, []) == [] && Members([]) == []
  {
  }

  lemma ArchivedPath(p: Path, name: string)
    ensures Parent(p + [name]) == p && (p + [name])[|p|] == name
    ensures forall e: Entry :: MemberOf((p + [name], e)).path == Prefix(p) + name
  {
    assert Parent(p + [name]) == p;
  }

  lemma EntryNames(fs: FS, p: Path, dir: Inode)
    requires fs.Valid() && p in fs.nodes && fs.nodes[p] == dir
    ensures dir.entries.Keys == Children(fs.Flat(), p)
  {
    hide Linked;
    forall n ensures n in dir.entries <==> n in Children(fs.Flat(), p) {
      EntriesLead(fs.Tree(), p, n);
      ChildrenAre(fs.Flat(), p, n);
    }
  }

  // ----- images -----

  /** Layers one after the other; None as soon as a member fails. */
  function ProcessLayers(m: FlatFs, layers: seq<seq<Member>>): Option<FlatFs> {
    if layers == [] then Some(m) else
      match ProcessLayers(m, layers[..|layers| - 1])
      case None => None
      case Some(before) => ProcessAll(before, layers[|layers| - 1])
  }

  /** Files whose mode the image build does not control. */
  const FIXED_PATHS: seq<string> := ["etc/hosts", "etc/hostname", "etc/resolv.conf"]
  const FIXED_MODE: nat := 0x1A4

  function ChmodAll(m: FlatFs, paths: seq<string>): Option<FlatFs> {
    if paths == [] then Some(m) else
      match ChmodAll(m, paths[..|paths| - 1])
      case None => None
      case Some(before) => Chmod(before, Parts(paths[|paths| - 1]), FIXED_MODE)
  }

  /** The file system an image flattens to. */
  function Flatten(layers: seq<seq<Member>>): Option<FlatFs> {
    match ProcessLayers(EmptyFs(), layers)
    case None => None
    case Some(m) => ChmodAll(m, FIXED_PATHS)
  }

  ghost predicate AllNamed(layers: seq<seq<Member>>) {
    forall i :: 0 <= i < |layers| ==> forall e :: e in layers[i] ==> Named(e)
  }

  lemma {:induction false} LayersKeep(m: FlatFs, layers: seq<seq<Member>>)
    requires WellFormed(m) && AllNamed(layers) && ProcessLayers(m, layers).Some?
    ensures WellFormed(ProcessLayers(m, layers).value)
    ensures ProcessLayers(m, layers).value[[]] == m[[]]
  {
    hide WellFormed, ProcessAll, Named;
    RootIsDir(m);
    if layers != [] {
      var n := |layers| - 1;
      LayersKeep(m, layers[..n]);
      ProcessAllKeeps(ProcessLayers(m, layers[..n]).value, layers[n]);
    }
  }

  lemma {:induction false} ChmodAllKeeps(m: FlatFs, paths: seq<string>)
    requires WellFormed(m) && ChmodAll(m, paths).Some? && forall i :: 0 <= i < |paths| ==> Parts(paths[i]) != []
    ensures WellFormed(ChmodAll(m, paths).value)
    ensures ChmodAll(m, paths).value[[]] == m[[]]
  {
    hide WellFormed, Parts;
    RootIsDir(m);
    if paths != [] {
      var n := |paths| - 1;
      ChmodAllKeeps(m, paths[..n]);
      var before := ChmodAll(m, paths[..n]).value;
      ChmodKeeps(before, Parts(paths[n]), FIXED_MODE);
    }
  }

  /** Modes are set exactly when every path is there. */
  lemma {:induction false} ChmodAllExact(m: FlatFs, paths: seq<string>)
    ensures ChmodAll(m, paths).Some? <==> forall i :: 0 <= i < |paths| ==> Parts(paths[i]) in m
    ensures ChmodAll(m, paths).Some? ==> ChmodAll(m, paths).value.Keys == m.Keys
  {
    hide Parts;
    if paths != [] {
      var n := |paths| - 1;
      ChmodAllExact(m, paths[..n]);
      assert (forall i :: 0 <= i < |paths| ==> Parts(paths[i]) in m) <==>
             (forall i :: 0 <= i < n ==> Parts(paths[..n][i]) in m) && Parts(paths[n]) in m;
    }
  }

  /** The paths given get the fixed mode; every other field and every other entry is as before. */
  lemma {:induction false} ChmodAllSets(m: FlatFs, paths: seq<string>, q: Path)
    requires ChmodAll(m, paths).Some? && q in m
    ensures q in ChmodAll(m, paths).value
    ensures ChmodAll(m, paths).value[q] ==
      if exists i :: 0 <= i < |paths| && Parts(paths[i]) == q
      then m[q].(meta := m[q].meta.(mode := FIXED_MODE)) else m[q]
  {
    hide Parts;
    if paths != [] {
      var n := |paths| - 1;
      ChmodAllSets(m, paths[..n], q);
      assert (exists i :: 0 <= i < |paths| && Parts(paths[i]) == q) <==>
             (exists i :: 0 <= i < n && Parts(paths[..n][i]) == q) || Parts(paths[n]) == q;
    }
  }

  /** The members of all layers in order. */
  function AllMembers(layers: seq<seq<Member>>): seq<Member> {
    if layers == [] then [] else AllMembers(layers[..|layers| - 1]) + layers[|layers| - 1]
  }

  lemma {:induction false} LayersAreOne(m: FlatFs, layers: seq<seq<Member>>)
    ensures ProcessLayers(m, layers) == ProcessAll(m, AllMembers(layers))
  {
    if layers != [] {
      hide ProcessAll;
      var n := |layers| - 1;
      LayersAreOne(m, layers[..n]);
      ProcessJoined(m, AllMembers(layers[..n]), layers[n]);
    } else {
      assert ProcessAll(m, []) == Some(m);
    }
  }

  /** An image can be flattened exactly when each member of its layers can be applied to what the ones
      before it made, and the fixed files exist in the end. */
  lemma FlattenExact(layers: seq<seq<Member>>)
    ensures var es := AllMembers(layers);
      Flatten(layers).Some? <==>
      && AllApply(EmptyFs(), es)
      && ProcessAll(EmptyFs(), es).Some?
      && forall i :: 0 <= i < |FIXED_PATHS| ==> Parts(FIXED_PATHS[i]) in ProcessAll(EmptyFs(), es).value
  {
    hide Parts, ProcessLayers, ChmodAll, ProcessAll, AllMembers, AllApply;
    LayersAreOne(EmptyFs(), layers);
    ProcessAllExact(EmptyFs(), AllMembers(layers));
    if ProcessLayers(EmptyFs(), layers).Some? {
      ChmodAllExact(ProcessLayers(EmptyFs(), layers).value, FIXED_PATHS);
    }
  }

  /** The fixed paths, name by name. */
  const FIXED: seq<Path> := [["etc", "hosts"], ["etc", "hostname"], ["etc", "resolv.conf"]]

  lemma FixedParts()
    ensures |FIXED| == |FIXED_PATHS| && forall i :: 0 <= i < |FIXED| ==> Parts(FIXED_PATHS[i]) == FIXED[i]
  {
    hide Parts;
    assert "etc/hosts" == "etc" + "/" + "hosts";
    assert "etc/hostname" == "etc" + "/" + "hostname";
    assert "etc/resolv.conf" == "etc" + "/" + "resolv.conf";
    PartsFirst("etc", "hosts");
    PartsFirst("etc", "hostname");
    PartsFirst("etc", "resolv.conf");
    PartsOfName("hosts");
    PartsOfName("hostname");
    PartsOfName("resolv.conf");
  }

  lemma FlattenKeeps(layers: seq<seq<Member>>)
    requires AllNamed(layers) && Flatten(layers).Some?
    ensures WellFormed(Flatten(layers).value) && Flatten(layers).value[[]] == ROOT_ENTRY
  {
    hide WellFormed, ProcessLayers, ChmodAll, Parts;
    EmptyWellFormed();
    LayersKeep(EmptyFs(), layers);
    FixedParts();
    ChmodAllKeeps(ProcessLayers(EmptyFs(), layers).value, FIXED_PATHS);
  }

  /** What every path of an image holds: what the last member of all layers that decides it says, with the
      mode of the fixed files set and nothing else changed. */
  lemma FlattenDecides(layers: seq<seq<Member>>, q: Path)
    requires Flatten(layers).Some?
    ensures ProcessAll(EmptyFs(), AllMembers(layers)).Some?
    ensures var es := AllMembers(layers);
      var y := At(ProcessAll(EmptyFs(), es).value, q);
      && (forall k: nat :: LastDecider(es, q, k) ==> Verdict(es[k], q, y))
      && ((forall k :: 0 <= k < |es| ==> !Decides(es[k], q)) ==> y == At(EmptyFs(), q))
      && (q in FIXED ==> y.Some?)
      && At(Flatten(layers).value, q) ==
         if q in FIXED then Some(y.value.(meta := y.value.meta.(mode := FIXED_MODE))) else y
  {
    hide Parts, ProcessLayers, ChmodAll, ProcessAll, AllMembers, Decides, Verdict;
    var es := AllMembers(layers);
    LayersAreOne(EmptyFs(), layers);
    var m := ProcessAll(EmptyFs(), es).value;
    LastDecides(EmptyFs(), es, q);
    ChmodAllExact(m, FIXED_PATHS);
    FixedParts();
    if q in m { ChmodAllSets(m, FIXED_PATHS, q); }
    assert q in FIXED <==> exists i :: 0 <= i < |FIXED_PATHS| && Parts(FIXED_PATHS[i]) == q;
  }

  /** The archive of an image, read as a single layer into an empty file system, is the image again. */
  lemma ImageRoundTrip(layers: seq<seq<Member>>)
    requires AllNamed(layers) && Flatten(layers).Some?
    ensures var m := Flatten(layers).value;
      && Listing(m, ListDir(m, []))
      && ProcessAll(EmptyFs(), Members(ListDir(m, []))) == Some(m)
  {
    hide WellFormed, Flatten, ProcessAll, ListDir, Listing;
    FlattenKeeps(layers);
    var m := Flatten(layers).value;
    RootIsDir(m);
    ReplayArchive(m);
    assert m[[] := ROOT_ENTRY] == m;
  }

  /** Builds the tree of an image; null when some member or some fixed path fails. */
  method ExtractFs(layers: seq<seq<Member>>) returns (fs: FS?)
    requires AllNamed(layers)
    ensures fs != null <==> Flatten(layers).Some?
    ensures fs != null ==> fs.Valid() && fs.Flat() == Flatten(layers).value && WellFormed(fs.Flat())
    ensures fs != null ==> fresh(fs) && fresh(fs.nodes.Values)
  {
    hide WellFormed, ProcessAll, Linked, Chmod, Parts;
    var t := new FS();
    for i := 0 to |layers|
      invariant t.Valid() && fresh(t) && fresh(t.nodes.Values)
      invariant ProcessLayers(EmptyFs(), layers[..i]) == Some(t.Flat())
    {
      assert layers[..i + 1][..i] == layers[..i];
      var ok := t.ApplyLayer(layers[i]);
      if !ok {
        LayersStuck(EmptyFs(), layers, i + 1);
        return null;
      }
    }
    assert layers[..|layers|] == layers;
    ghost var m := t.Flat();
    for i := 0 to |FIXED_PATHS|
      invariant t.Valid() && fresh(t) && fresh(t.nodes.Values)
      invariant ChmodAll(m, FIXED_PATHS[..i]) == Some(t.Flat())
    {
      assert FIXED_PATHS[..i + 1][..i] == FIXED_PATHS[..i];
      var ok := t.ChangeMode(FIXED_PATHS[i], FIXED_MODE);
      if !ok {
        ChmodStuck(m, FIXED_PATHS, i + 1);
        return null;
      }
    }
    assert FIXED_PATHS[..|FIXED_PATHS|] == FIXED_PATHS;
    FlattenKeeps(layers);
    return t;
  }

  lemma {:induction false} LayersStuck(m: FlatFs, layers: seq<seq<Member>>, i: nat)
    requires i <= |layers| && ProcessLayers(m, layers[..i]).None?
    ensures ProcessLayers(m, layers).None?
    decreases |layers|
  {
    if i == |layers| {
      assert layers[..i] == layers;
    } else {
      assert layers[..|layers| - 1][..i] == layers[..i];
      LayersStuck(m, layers[..|layers| - 1], i);
    }
  }

  lemma {:induction false} ChmodStuck(m: FlatFs, paths: seq<string>, i: nat)
    requires i <= |paths| && ChmodAll(m, paths[..i]).None?
    ensures ChmodAll(m, paths).None?
    decreases |paths|
  {
    if i == |paths| {
      assert paths[..i] == paths;
    } else {
      assert paths[..|paths| - 1][..i] == paths[..i];
      ChmodStuck(m, paths[..|paths| - 1], i);
    }
  }

  /** Archives a file system: its listing, whatever layers it came from. */
  method TarFs(fs: FS) returns (tf: Archive)
    requires fs.Valid() && WellFormed(fs.Flat())
    ensures fresh(tf)
    ensures Listing(fs.Flat(), ListDir(fs.Flat(), [])) && NoRoot(ListDir(fs.Flat(), []))
    ensures tf.members == Members(ListDir(fs.Flat(), []))
  {
    hide Linked, ListDir, Listing, Members;
    ArchiveIsListing(fs.Flat());
    RootThere(fs.Tree());
    tf := new Archive();
    AddToTar(fs, "", fs.root, tf, []);
  }
}

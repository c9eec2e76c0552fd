/** The directory tree that layers are flattened into: inodes that point to their entries and are
    changed in place. */
module LayerTree {
  import opened Basics
  import opened PathNames
  import opened LayerMap

  datatype Content = DirContent | LinkContent(target: string) | RegContent(contents: seq<byte>)

  class Inode {
    var meta: Meta
    const content: Content
    var entries: map<string, Inode>

    constructor (meta: Meta, content: Content)
      ensures this.meta == meta && this.content == content && entries == map[]
    {
      this.meta, this.content, entries := meta, content, map[];
    }

    ghost function AsEntry(): Entry
      reads this
    {
      EntryFor(meta, content)
    }
  }

  /** Where every path leads, and the entries found there. */
  datatype Shape = Shape(nodes: map<Path, Inode>, links: map<Path, map<string, Inode>>)

  ghost predicate Has(s: Shape, p: Path, n: string) { p in s.links && n in s.links[p] }

  /** Pointers and paths agree, only directories have entries, and no inode is reached by two paths. */
  ghost predicate Linked(s: Shape) {
    && s.links.Keys == s.nodes.Keys
    && [] in s.nodes && s.nodes[[]].content.DirContent?
    && (forall p, q :: p in s.nodes && q in s.nodes && s.nodes[p] == s.nodes[q] ==> p == q)
    && (forall p, n :: Has(s, p, n) ==> p + [n] in s.nodes && s.nodes[p + [n]] == s.links[p][n])
    && (forall p {:trigger Reached(s, p)} :: Reached(s, p) && p != [] ==> Has(s, Parent(p), p[|p| - 1]))
    && (forall p, n :: Has(s, p, n) ==> s.nodes[p].content.DirContent?)
  }

  ghost predicate Reached(s: Shape, p: Path) { p in s.nodes }

  ghost function Prune<T>(m: map<Path, T>, p: Path): map<Path, T> {
    map q | q in m && !(p <= q) :: m[q]
  }

  /** The tree with a new inode without entries in place of whatever was at dir + [name]. */
  ghost function Replaced(s: Shape, dir: Path, name: string, node: Inode): Shape
    requires dir in s.links
  {
    var p := dir + [name];
    Shape(Prune(s.nodes, p)[p := node],
          Prune(s.links, p)[dir := s.links[dir][name := node]][p := map[]])
  }

  ghost function Removed(s: Shape, dir: Path, name: string): Shape
    requires dir in s.links
  {
    var p := dir + [name];
    Shape(Prune(s.nodes, p), Prune(s.links, p)[dir := s.links[dir] - {name}])
  }

  ghost function PruneBelow<T>(m: map<Path, T>, p: Path): map<Path, T> {
    map q | q in m && !(p < q) :: m[q]
  }

  ghost function Emptied(s: Shape, p: Path): Shape {
    Shape(PruneBelow(s.nodes, p), PruneBelow(s.links, p)[p := map[]])
  }

  lemma ChildPath(dir: Path, name: string, q: Path, n: string)
    ensures Parent(dir + [name]) == dir && (dir + [name])[|dir|] == name
    ensures dir + [name] <= q + [n] <==> dir + [name] <= q || (q == dir && n == name)
  {
    var p := dir + [name];
    if p <= q + [n] && !(p <= q) {
      assert |p| == |q| + 1;
      assert p == q + [n];
      assert p[..|dir|] == dir && (q + [n])[..|q|] == q;
    }
  }

  lemma ReplacedLinked(s: Shape, dir: Path, name: string, node: Inode)
    requires Linked(s) && dir in s.nodes && s.nodes[dir].content.DirContent?
    requires forall q :: q in s.nodes ==> s.nodes[q] != node
    ensures Linked(Replaced(s, dir, name, node))
  {
    var p, u := dir + [name], Replaced(s, dir, name, node);
    assert !(p <= dir) && !(p <= []);
    assert u.links.Keys == u.nodes.Keys;
    ReplacedDown(s, dir, name, node);
    ReplacedUp(s, dir, name, node);
  }

  lemma ReplacedDown(s: Shape, dir: Path, name: string, node: Inode)
    requires Linked(s) && dir in s.nodes && s.nodes[dir].content.DirContent?
    ensures var u := Replaced(s, dir, name, node);
      && (forall q, n :: Has(u, q, n) ==> q in u.nodes && q + [n] in u.nodes && u.nodes[q + [n]] == u.links[q][n])
      && (forall q, n :: Has(u, q, n) ==> u.nodes[q].content.DirContent?)
  {
    var p, u := dir + [name], Replaced(s, dir, name, node);
    assert !(p <= dir);
    forall q, n | Has(u, q, n)
      ensures q in u.nodes && q + [n] in u.nodes && u.nodes[q + [n]] == u.links[q][n] && u.nodes[q].content.DirContent?
    {
      ChildPath(dir, name, q, n);
      if q == dir && n == name {
        assert q + [n] == p;
      } else {
        assert q != p && Has(s, q, n);
        assert q + [n] != p;
      }
    }
  }

  lemma ReplacedUp(s: Shape, dir: Path, name: string, node: Inode)
    requires Linked(s) && dir in s.nodes
    ensures var u := Replaced(s, dir, name, node);
      forall q {:trigger Reached(u, q)} :: Reached(u, q) && q != [] ==> Has(u, Parent(q), q[|q| - 1])
  {
    var p, u := dir + [name], Replaced(s, dir, name, node);
    assert !(p <= dir);
    forall q | Reached(u, q) && q != [] ensures Has(u, Parent(q), q[|q| - 1]) {
      var n := q[|q| - 1];
      assert q == Parent(q) + [n];
      ChildPath(dir, name, Parent(q), n);
      if q == p {
        assert Parent(q) == dir && n == name;
      } else {
        assert Reached(s, q);
        assert Has(s, Parent(q), n);
        assert !(p <= Parent(q));
      }
    }
  }

  lemma RemovedLinked(s: Shape, dir: Path, name: string)
    requires Linked(s) && dir in s.nodes
    ensures Linked(Removed(s, dir, name))
  {
    var p, u := dir + [name], Removed(s, dir, name);
    assert !(p <= dir) && !(p <= []);
    assert u.links.Keys == u.nodes.Keys;
    forall q, n | Has(u, q, n)
      ensures q + [n] in u.nodes && u.nodes[q + [n]] == u.links[q][n] && u.nodes[q].content.DirContent?
    {
      ChildPath(dir, name, q, n);
      assert Has(s, q, n);
    }
    forall q | Reached(u, q) && q != [] ensures Has(u, Parent(q), q[|q| - 1]) {
      var n := q[|q| - 1];
      assert q == Parent(q) + [n];
      ChildPath(dir, name, Parent(q), n);
      assert Reached(s, q);
    }
  }

  lemma EmptiedLinked(s: Shape, p: Path)
    requires Linked(s) && p in s.nodes
    ensures Linked(Emptied(s, p))
  {
    var u := Emptied(s, p);
    assert u.links.Keys == u.nodes.Keys;
    forall q, n | Has(u, q, n)
      ensures q + [n] in u.nodes && u.nodes[q + [n]] == u.links[q][n] && u.nodes[q].content.DirContent?
    {
      assert Has(s, q, n) && q != p;
      assert p < q + [n] ==> p <= q;
    }
    forall q | Reached(u, q) && q != [] ensures Has(u, Parent(q), q[|q| - 1]) {
      assert Reached(s, q);
      assert Parent(q) < q;
    }
  }

  lemma {:induction false} PrefixNode(s: Shape, parts: Path, i: nat)
    requires Linked(s) && i <= |parts| && parts in s.nodes
    ensures parts[..i] in s.nodes
    decreases |parts|
  {
    if i == |parts| {
      assert parts[..i] == parts;
    } else {
      assert Reached(s, parts);
      PrefixNode(s, Parent(parts), i);
      assert Parent(parts)[..i] == parts[..i];
    }
  }

  lemma NotBeyond(s: Shape, parts: Path, i: nat)
    requires Linked(s) && i < |parts| && !Has(s, parts[..i], parts[i])
    ensures parts !in s.nodes
  {
    assert Parent(parts[..i + 1]) == parts[..i];
    assert !Reached(s, parts[..i + 1]);
    if parts in s.nodes {
      PrefixNode(s, parts, i + 1);
    }
  }

  /** What is not there has nothing below it. */
  lemma PruneAbsent(s: Shape, p: Path)
    requires Linked(s) && p !in s.nodes
    ensures forall q :: q in s.nodes ==> !(p <= q)
    ensures Prune(s.nodes, p) == s.nodes && Prune(s.links, p) == s.links
  {
    forall q | q in s.nodes ensures !(p <= q) {
      if p <= q {
        assert q[..|p|] == p;
        PrefixNode(s, q, |p|);
      }
    }
  }

  class FS {
    const root: Inode
    ghost var nodes: map<Path, Inode>

    ghost function Tree(): Shape
      reads this, nodes.Values
    {
      Shape(nodes, map p | p in nodes :: nodes[p].entries)
    }

    ghost predicate Valid()
      reads this, nodes.Values
    {
      Linked(Tree()) && nodes[[]] == root
    }

    /** The flat map the tree stands for. */
    ghost function Flat(): FlatFs
      reads this, nodes.Values
    {
      map p | p in nodes :: nodes[p].AsEntry()
    }

    lemma FlatAt(p: Path)
      ensures p in Flat() <==> p in nodes
      ensures p in nodes ==> Flat()[p] == EntryFor(nodes[p].meta, nodes[p].content)
      ensures p in nodes ==> (IsDir(Flat(), p) <==> nodes[p].content.DirContent?)
    {
    }

    constructor ()
      ensures Valid() && Flat() == EmptyFs()
      ensures fresh(nodes.Values)
    {
      var r := new Inode(ROOT_ENTRY.meta, DirContent);
      root := r;
      nodes := map[[] := r];
      new;
      assert nodes[[]] == r;
      assert nodes.Values == {r};
    }

    /** Follows the parts from the root; null if some part is missing or is no directory. */
    method Lookup(parts: Path) returns (node: Inode?)
      requires Valid()
      ensures node != null <==> parts in nodes
      ensures node != null ==> node == nodes[parts]
    {
      hide Linked;
      var current := root;
      assert parts[..0] == [];
      RootThere(Tree());
      for i := 0 to |parts|
        invariant parts[..i] in nodes && current == nodes[parts[..i]]
      {
        assert parts[..i + 1] == parts[..i] + [parts[i]];
        assert Tree().links[parts[..i]] == current.entries;
        EntriesLead(Tree(), parts[..i], parts[i]);
        if !current.content.DirContent? || parts[i] !in current.entries {
          NotBeyond(Tree(), parts, i);
          return null;
        }
        current := current.entries[parts[i]];
      }
      assert parts[..|parts|] == parts;
      return current;
    }

    /** Gives the inode at the path new metadata. */
    method SetMeta(node: Inode, ghost p: Path, meta: Meta)
      requires Valid() && p in nodes && nodes[p] == node
      modifies node
      ensures Valid() && nodes == old(nodes)
      ensures Flat() == old(Flat())[p := EntryFor(meta, node.content)]
    {
      hide Linked;
      OnlyPath(Tree(), p);
      node.meta := meta;
      assert Tree() == old(Tree());
    }

    /** Changes one entry of a directory, and for the moment nothing else. */
    method SetEntries(parent: Inode, ghost dir: Path, entries: map<string, Inode>)
      requires Valid() && dir in nodes && nodes[dir] == parent
      modifies parent`entries
      ensures Flat() == old(Flat())
      ensures Tree() == Shape(nodes, old(Tree()).links[dir := entries])
    {
      hide Linked;
      OnlyPath(Tree(), dir);
      parent.entries := entries;
    }

    /** Makes the entry of a directory a new inode; what it led to is no longer reached. */
    method PutEntry(parent: Inode, ghost dir: Path, name: string, node: Inode)
      requires Valid() && dir in nodes && nodes[dir] == parent && parent.content.DirContent?
      requires node.entries == map[] && node !in nodes.Values
      modifies this`nodes, parent`entries
      ensures Valid() && nodes.Values <= old(nodes.Values) + {node}
      ensures Flat() == Without(old(Flat()), dir + [name])[dir + [name] := EntryFor(node.meta, node.content)]
    {
      hide Linked, Replaced, Without;
      ghost var before := Tree();
      RootThere(before);
      ReplacedLinked(before, dir, name, node);
      assert before.links[dir] == parent.entries;
      SetEntries(parent, dir, parent.entries[name := node]);
      Redirect(dir + [name], node);
      ReplacedIs(before, Tree(), dir, name, node);
      RootStays(before, dir, name, node);
      PruneValues(before.nodes, dir + [name], node);
    }

    /** Forgets the paths at and below p and makes p lead to the given inode. */
    ghost method Redirect(p: Path, node: Inode)
      requires node !in nodes.Values
      modifies this`nodes
      ensures nodes == Prune(old(nodes), p)[p := node]
      ensures Tree() == Shape(nodes, Prune(old(Tree().links), p)[p := node.entries])
      ensures Flat() == Without(old(Flat()), p)[p := EntryFor(node.meta, node.content)]
    {
      nodes := Prune(nodes, p)[p := node];
    }

    /** Creates the directory, or gives an existing one new metadata and keeps what is in it. */
    method AddDirectory(path: string, meta: Meta) returns (ok: bool)
      requires Valid()
      modifies this, nodes.Values
      ensures Valid() && fresh(nodes.Values - old(nodes.Values))
      ensures match AddDir(old(Flat()), Parts(Dirname(path)), Basename(path), meta)
        case None => !ok && Flat() == old(Flat())
        case Some(m) => ok && Flat() == m
    {
      hide Parts, Dirname, Basename, Linked, Flat, EntryFor;
      var base := Basename(path);
      ghost var dir := Parts(Dirname(path));
      FlatAt(dir);
      FlatAt(dir + [base]);
      var parent := Lookup(Parts(Dirname(path)));
      if parent == null || !parent.content.DirContent? {
        return false;
      }
      EntriesLead(Tree(), dir, base);
      assert Tree().links[dir] == parent.entries;
      DirEntry(meta);
      if base in parent.entries {
        var child := parent.entries[base];
        if !child.content.DirContent? {
          return false;
        }
        SetMeta(child, dir + [base], meta);
      } else {
        MakeDirectory(parent, dir, base, meta);
      }
      return true;
    }

    method MakeDirectory(parent: Inode, ghost dir: Path, name: string, meta: Meta)
      requires Valid() && dir in nodes && nodes[dir] == parent && parent.content.DirContent?
      requires dir + [name] !in nodes
      modifies this`nodes, parent`entries
      ensures Valid() && fresh(nodes.Values - old(nodes.Values))
      ensures Flat() == old(Flat())[dir + [name] := Dir(meta)]
    {
      hide Linked, Without;
      PruneAbsent(Tree(), dir + [name]);
      WithoutAbsent(Flat(), dir + [name]);
      var child := new Inode(meta, DirContent);
      PutEntry(parent, dir, name, child);
    }

    /** Puts a link or a file in place of whatever the path led to. */
    method AddNode(path: string, meta: Meta, content: Content) returns (ok: bool)
      requires Valid() && !content.DirContent?
      modifies this, nodes.Values
      ensures Valid() && fresh(nodes.Values - old(nodes.Values))
      ensures match AddLeaf(old(Flat()), Parts(Dirname(path)), Basename(path), EntryFor(meta, content))
        case None => !ok && Flat() == old(Flat())
        case Some(m) => ok && Flat() == m
    {
      hide Parts, Dirname, Basename, Linked, Without, Flat, EntryFor;
      ghost var dir := Parts(Dirname(path));
      FlatAt(dir);
      var parent := Lookup(Parts(Dirname(path)));
      if parent == null || !parent.content.DirContent? {
        return false;
      }
      var node := new Inode(meta, content);
      PutEntry(parent, dir, Basename(path), node);
      return true;
    }

    /** Removes the entry and everything below it; the entry must be there. */
    method RemoveEntry(path: string) returns (ok: bool)
      requires Valid()
      modifies this, nodes.Values
      ensures Valid() && nodes.Values <= old(nodes.Values)
      ensures match Unlink(old(Flat()), Parts(Dirname(path)), Basename(path))
        case None => !ok && Flat() == old(Flat())
        case Some(m) => ok && Flat() == m
    {
      hide Parts, Dirname, Basename, Linked, Without, Flat, EntryFor;
      var base := Basename(path);
      ghost var dir := Parts(Dirname(path));
      FlatAt(dir);
      FlatAt(dir + [base]);
      var parent := Lookup(Parts(Dirname(path)));
      if parent == null || !parent.content.DirContent? {
        return false;
      }
      EntriesLead(Tree(), dir, base);
      assert Tree().links[dir] == parent.entries;
      if base !in parent.entries {
        return false;
      }
      DropEntry(parent, dir, base);
      return true;
    }

    method DropEntry(parent: Inode, ghost dir: Path, name: string)
      requires Valid() && dir in nodes && nodes[dir] == parent
      modifies this`nodes, parent`entries
      ensures Valid() && nodes.Values <= old(nodes.Values)
      ensures Flat() == Without(old(Flat()), dir + [name])
    {
      hide Linked, Removed, Without;
      ghost var before := Tree();
      RemovedLinked(before, dir, name);
      RemovedRoot(before, dir, name);
      assert before.links[dir] == parent.entries;
      SetEntries(parent, dir, parent.entries - {name});
      Forget(dir + [name]);
      RemovedIs(before, Tree(), dir, name);
      assert nodes == Removed(before, dir, name).nodes;
    }

    ghost method Forget(p: Path)
      modifies this`nodes
      ensures nodes == Prune(old(nodes), p) && nodes.Values <= old(nodes.Values)
      ensures Tree() == Shape(nodes, Prune(old(Tree().links), p))
      ensures Flat() == Without(old(Flat()), p)
    {
      nodes := Prune(nodes, p);
    }

    /** Empties a directory and leaves the directory itself. */
    method ClearDirectory(path: string) returns (ok: bool)
      requires Valid()
      modifies this, nodes.Values
      ensures Valid() && nodes.Values <= old(nodes.Values)
      ensures match ClearDir(old(Flat()), Parts(path))
        case None => !ok && Flat() == old(Flat())
        case Some(m) => ok && Flat() == m
    {
      hide Parts, Linked, Emptied, Flat, EntryFor;
      FlatAt(Parts(path));
      var node := Lookup(Parts(path));
      if node == null || !node.content.DirContent? {
        return false;
      }
      ghost var p, before := Parts(path), Tree();
      EmptiedLinked(before, p);
      EmptiedRoot(before, p);
      SetEntries(node, p, map[]);
      ForgetBelow(p);
      EmptiedIs(before, Tree(), p);
      return true;
    }

    ghost method ForgetBelow(p: Path)
      modifies this`nodes
      ensures nodes == PruneBelow(old(nodes), p) && nodes.Values <= old(nodes.Values)
      ensures Tree() == Shape(nodes, PruneBelow(old(Tree().links), p))
      ensures Flat() == PruneBelow(old(Flat()), p)
    {
      nodes := PruneBelow(nodes, p);
    }

    method ChangeMode(path: string, mode: nat) returns (ok: bool)
      requires Valid()
      modifies nodes.Values
      ensures Valid() && nodes == old(nodes)
      ensures match Chmod(old(Flat()), Parts(path), mode)
        case None => !ok && Flat() == old(Flat())
        case Some(m) => ok && Flat() == m
    {
      hide Parts, Linked, Flat, EntryFor;
      FlatAt(Parts(path));
      var node := Lookup(Parts(path));
      if node == null {
        return false;
      }
      EntryMeta(node.meta, node.content, node.meta.(mode := mode));
      SetMeta(node, Parts(path), node.meta.(mode := mode));
      return true;
    }

    /** Applies one archive member: a whiteout of either kind, or an entry. */
    method ApplyMember(e: Member) returns (ok: bool)
      requires Valid()
      modifies this, nodes.Values
      ensures Valid() && fresh(nodes.Values - old(nodes.Values))
      ensures match Process(old(Flat()), e)
        case None => !ok && Flat() == old(Flat())
        case Some(m) => ok && Flat() == m
    {
      hide Parts, Dirname, Basename, Linked, Without, AddDir, AddLeaf, Unlink, ClearDir;
      var base, dir := Basename(e.path), Dirname(e.path);
      if base == OPAQUE {
        ok := ClearDirectory(dir);
      } else if Whiteout(base) {
        ok := RemoveEntry(JoinPath(dir, base[4..]));
      } else {
        match e.kind
        case DirType => ok := AddDirectory(e.path, e.meta);
        case RegType => ok := AddNode(e.path, e.meta, RegContent(e.contents));
        case LinkType => ok := AddNode(e.path, e.meta, LinkContent(e.linkName));
        case OtherType => ok := false;
      }
    }

    /** Applies a layer's members in the order of the archive; stops at the first that fails. */
    method ApplyLayer(layer: seq<Member>) returns (ok: bool)
      requires Valid()
      modifies this, nodes.Values
      ensures Valid() && fresh(nodes.Values - old(nodes.Values))
      ensures ok <==> ProcessAll(old(Flat()), layer).Some?
      ensures ok ==> Flat() == ProcessAll(old(Flat()), layer).value
    {
      hide Process, Linked;
      ok := true;
      for i := 0 to |layer|
        invariant Valid() && fresh(nodes.Values - old(nodes.Values))
        invariant ProcessAll(old(Flat()), layer[..i]) == Some(Flat())
      {
        assert layer[..i + 1][..i] == layer[..i];
        ok := ApplyMember(layer[i]);
        if !ok {
          Stuck(old(Flat()), layer, i + 1);
          return false;
        }
      }
      assert layer[..|layer|] == layer;
    }
  }

  /** Once a member fails the layer fails. */
  lemma {:induction false} Stuck(m: FlatFs, es: seq<Member>, i: nat)
    requires i <= |es| && ProcessAll(m, es[..i]).None?
    ensures ProcessAll(m, es).None?
    decreases |es|
  {
    if i == |es| {
      assert es[..i] == es;
    } else {
      assert es[..|es| - 1][..i] == es[..i];
      Stuck(m, es[..|es| - 1], i);
    }
  }

  lemma RemovedRoot(s: Shape, dir: Path, name: string)
    requires Linked(s) && dir in s.links
    ensures [] in s.nodes && [] in Removed(s, dir, name).nodes && Removed(s, dir, name).nodes[[]] == s.nodes[[]]
  {
    assert !(dir + [name] <= []);
  }

  lemma RemovedIs(s: Shape, u: Shape, dir: Path, name: string)
    requires dir in s.links && u.nodes == Prune(s.nodes, dir + [name])
    requires u.links == Prune(s.links[dir := s.links[dir] - {name}], dir + [name])
    ensures u == Removed(s, dir, name)
  {
    var p := dir + [name];
    assert !(p <= dir);
    assert Prune(s.links[dir := s.links[dir] - {name}], p) == Prune(s.links, p)[dir := s.links[dir] - {name}];
  }

  lemma EmptiedRoot(s: Shape, p: Path)
    requires Linked(s)
    ensures [] in s.nodes && [] in Emptied(s, p).nodes && Emptied(s, p).nodes[[]] == s.nodes[[]]
  {
    assert !(p < []);
  }

  lemma EmptiedIs(s: Shape, u: Shape, p: Path)
    requires p in s.links && u.nodes == PruneBelow(s.nodes, p)
    requires u.links == PruneBelow(s.links[p := map[]], p)
    ensures u == Emptied(s, p)
  {
  }

  lemma PruneValues(m: map<Path, Inode>, p: Path, node: Inode)
    ensures Prune(m, p)[p := node].Values <= m.Values + {node}
  {
  }

  lemma WithoutAbsent(m: FlatFs, p: Path)
    requires forall q :: q in m ==> !(p <= q)
    ensures Without(m, p) == m
  {
  }

  lemma RootStays(s: Shape, dir: Path, name: string, node: Inode)
    requires dir in s.links && [] in s.nodes
    ensures [] in Replaced(s, dir, name, node).nodes && Replaced(s, dir, name, node).nodes[[]] == s.nodes[[]]
  {
    assert !(dir + [name] <= []);
  }

  lemma OnlyPath(s: Shape, p: Path)
    requires Linked(s) && p in s.nodes
    ensures forall q :: q in s.nodes && s.nodes[q] == s.nodes[p] ==> q == p
  {
  }

  lemma ReplacedIs(s: Shape, u: Shape, dir: Path, name: string, node: Inode)
    requires dir in s.links && u.nodes == Prune(s.nodes, dir + [name])[dir + [name] := node]
    requires u.links == Prune(s.links[dir := s.links[dir][name := node]], dir + [name])[dir + [name] := map[]]
    ensures u == Replaced(s, dir, name, node)
  {
    var p := dir + [name];
    assert !(p <= dir);
    assert Prune(s.links[dir := s.links[dir][name := node]], p) == Prune(s.links, p)[dir := s.links[dir][name := node]];
  }

  lemma RootThere(s: Shape)
    requires Linked(s)
    ensures [] in s.nodes
  {
  }

  lemma EntriesLead(s: Shape, p: Path, n: string)
    requires Linked(s) && p in s.nodes
    ensures p in s.links
    ensures n in s.links[p] <==> p + [n] in s.nodes
    ensures n in s.links[p] ==> s.nodes[p + [n]] == s.links[p][n] && s.nodes[p].content.DirContent?
  {
    assert Parent(p + [n]) == p && (p + [n])[|p|] == n;
    assert Reached(s, p + [n]) ==> Has(s, p, n);
    assert n in s.links[p] <==> Has(s, p, n);
  }

  ghost function EntryFor(meta: Meta, content: Content): Entry {
    match content
    case DirContent => Dir(meta)
    case LinkContent(target) => Link(meta, target)
    case RegContent(contents) => Reg(meta, contents)
  }

  lemma EntryMeta(meta: Meta, content: Content, other: Meta)
    ensures EntryFor(meta, content).meta == meta
    ensures EntryFor(other, content) == EntryFor(meta, content).(meta := other)
  {
  }

  lemma DirEntry(meta: Meta)
    ensures EntryFor(meta, DirContent) == Dir(meta)
  {
  }
}

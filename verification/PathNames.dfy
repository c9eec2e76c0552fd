/** Archive paths as strings: how they are split into names, and how names are joined into paths. */
module PathNames {

  type Path = seq<string>

  predicate SlashFree(s: string) { '/' !in s }

  /** A name an entry can have: the path it ends can be taken apart again. */
  predicate ProperName(s: string) { s != "" && SlashFree(s) }

  function FirstSlash(s: string): (n: nat)
    ensures n <= |s| && SlashFree(s[..n])
    ensures n < |s| ==> s[n] == '/'
  {
    if s == "" then 0
    else if s[0] == '/' then 0
    else
      var n := FirstSlash(s[1..]);
      assert s[..n + 1] == [s[0]] + s[1..][..n];
      n + 1
  }

  /** One past the last slash, 0 if there is none. */
  function AfterLastSlash(s: string): (n: nat)
    ensures n <= |s| && SlashFree(s[n..])
    ensures n > 0 ==> s[n - 1] == '/'
  {
    if s == "" then 0
    else if s[|s| - 1] == '/' then |s|
    else
      var init := s[..|s| - 1];
      var n := AfterLastSlash(init);
      assert s[n..] == init[n..] + [s[|s| - 1]];
      n
  }

  /** The nonempty parts between slashes. */
  function Parts(s: string): (ps: Path)
    ensures forall p :: p in ps ==> ProperName(p)
    decreases |s|
  {
    if s == "" then [] else
      var n := FirstSlash(s);
      (if n == 0 then [] else [s[..n]]) + (if n == |s| then [] else Parts(s[n + 1..]))
  }

  function Basename(s: string): (b: string)
    ensures SlashFree(b)
  {
    s[AfterLastSlash(s)..]
  }

  function StripSlashes(s: string): string {
    if s != "" && s[|s| - 1] == '/' then StripSlashes(s[..|s| - 1]) else s
  }

  /** Everything before the last name, without trailing slashes unless it is slashes only. */
  function Dirname(s: string): string {
    var head := s[..AfterLastSlash(s)];
    if head != "" && StripSlashes(head) != "" then StripSlashes(head) else head
  }

  /** Joins a directory and a slash-free name. */
  function JoinPath(dir: string, name: string): string
    requires SlashFree(name)
  {
    if dir == "" || dir[|dir| - 1] == '/' then dir + name else dir + "/" + name
  }

  // ----- splitting undoes joining -----

  lemma {:induction false} FirstSlashAt(a: string, b: string)
    requires SlashFree(a)
    ensures FirstSlash(a + "/" + b) == |a|
  {
    if a != "" {
      FirstSlashAt(a[1..], b);
      assert (a + "/" + b)[1..] == a[1..] + "/" + b;
      assert a[0] in a;
    }
  }

  function Single(name: string): Path {
    if name == "" then [] else [name]
  }

  lemma PartsOfName(name: string)
    requires SlashFree(name)
    ensures Parts(name) == Single(name)
  {
    if name != "" {
      var n := FirstSlash(name);
      assert forall i :: 0 <= i < |name| ==> name[i] != '/';
      assert name[..n] == name;
    }
  }

  lemma PartsFirst(head: string, rest: string)
    requires SlashFree(head)
    ensures Parts(head + "/" + rest) == Single(head) + Parts(rest)
  {
    var s := head + "/" + rest;
    FirstSlashAt(head, rest);
    assert s[|head| + 1..] == rest && s[..|head|] == head;
  }

  lemma {:induction false} PartsJoin(a: string, b: string)
    ensures Parts(a + "/" + b) == Parts(a) + Parts(b)
    decreases |a|
  {
    hide Parts;
    var n := FirstSlash(a);
    if n == |a| {
      assert a[..n] == a;
      PartsFirst(a, b);
      PartsOfName(a);
    } else {
      var head, rest := a[..n], a[n + 1..];
      assert a == head + "/" + rest;
      assert a + "/" + b == head + "/" + (rest + "/" + b);
      PartsFirst(head, rest);
      PartsFirst(head, rest + "/" + b);
      PartsJoin(rest, b);
    }
  }

  lemma {:induction false} PartsStrip(s: string)
    ensures Parts(StripSlashes(s)) == Parts(s)
  {
    hide Parts;
    if s != "" && s[|s| - 1] == '/' {
      var init := s[..|s| - 1];
      PartsStrip(init);
      assert s == init + "/" + "";
      PartsJoin(init, "");
      PartsOfName("");
    }
  }

  lemma PartsDirname(s: string)
    ensures Parts(Dirname(s)) == Parts(s[..AfterLastSlash(s)])
  {
    PartsStrip(s[..AfterLastSlash(s)]);
  }

  /** A path's names are its directory's and its own. */
  lemma SplitParts(s: string)
    ensures Parts(s) == Parts(Dirname(s)) + Single(Basename(s))
  {
    hide Parts;
    var k := AfterLastSlash(s);
    var head, base := s[..k], Basename(s);
    PartsDirname(s);
    PartsOfName(base);
    assert s == head + base;
    if k == 0 {
      PartsOfName("");
      assert head == "" && head + base == base;
    } else {
      var h := s[..k - 1];
      assert head == h + "/" + "" && s == h + "/" + base;
      PartsJoin(h, "");
      PartsJoin(h, base);
      PartsOfName("");
    }
  }

  lemma {:induction false} AfterLastSlashOf(dir: string, name: string)
    requires SlashFree(name) && (dir == "" || dir[|dir| - 1] == '/')
    ensures AfterLastSlash(dir + name) == |dir|
  {
    if name == "" {
      assert dir + name == dir;
    } else {
      var n := |name| - 1;
      assert name[n] in name;
      assert (dir + name)[..|dir + name| - 1] == dir + name[..n];
      AfterLastSlashOf(dir, name[..n]);
    }
  }

  /** A path made of a directory and a name is taken apart into just those. */
  lemma SplitJoined(dir: string, name: string)
    requires SlashFree(name)
    ensures Basename(JoinPath(dir, name)) == name
    ensures Parts(Dirname(JoinPath(dir, name))) == Parts(dir)
  {
    var s := JoinPath(dir, name);
    var front := if dir == "" || dir[|dir| - 1] == '/' then dir else dir + "/";
    assert s == front + name;
    AfterLastSlashOf(front, name);
    assert s[|front|..] == name && s[..|front|] == front;
    PartsDirname(s);
    if front != dir {
      assert front == dir + "/" + "";
      PartsJoin(dir, "");
    }
  }

  /** The prefix under which the entries of a directory are archived. */
  function Prefix(p: Path): string {
    if p == [] then "" else p[0] + "/" + Prefix(p[1..])
  }

  lemma {:induction false} PartsPrefix(p: Path)
    requires forall n :: n in p ==> ProperName(n)
    ensures Parts(Prefix(p)) == p
    ensures Prefix(p) == "" || Prefix(p)[|Prefix(p)| - 1] == '/'
  {
    if p != [] {
      hide Parts;
      assert p[0] in p;
      PartsPrefix(p[1..]);
      PartsFirst(p[0], Prefix(p[1..]));
      assert p == [p[0]] + p[1..];
    } else {
      PartsOfName("");
    }
  }

  /** The prefix of a directory's subdirectory. */
  lemma {:induction false} PrefixSnoc(p: Path, name: string)
    ensures Prefix(p + [name]) == Prefix(p) + name + "/"
  {
    if p == [] {
      assert (p + [name])[1..] == [];
    } else {
      PrefixSnoc(p[1..], name);
      assert (p + [name])[1..] == p[1..] + [name];
    }
  }

  /** An archived path is taken apart into the directory and the name it was made of. */
  lemma SplitArchived(p: Path, name: string)
    requires (forall n :: n in p ==> ProperName(n)) && ProperName(name)
    ensures Basename(Prefix(p) + name) == name && Parts(Dirname(Prefix(p) + name)) == p
  {
    PartsPrefix(p);
    SplitJoined(Prefix(p), name);
  }
}

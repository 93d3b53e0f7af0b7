/** Names in the kernel's file tree: what a path leads to across directories of src/fs/ramfs.c and mount
    points (src/fs/mount.c), and what creating and removing an entry does to all other paths. */
module Vfs {
  import opened Common
  import opened Paths

  type Ino = nat

  datatype Entry = Entry(name: string, ino: Ino)

  /** The directory list, newest entry first. */
  datatype Node = File(data: seq<byte>) | Dir(entries: seq<Entry>)

  datatype Mount = Mount(path: string, root: Ino)

  /** mounts is the mount table, with None for a free slot. */
  datatype Fs = Fs(root: Ino, nodes: map<Ino, Node>, mounts: seq<Option<Mount>>)

  // ---------------------------------------------------------------- lookup

  /** mount_get_sb, from slot i on */
  function MountFrom(mounts: seq<Option<Mount>>, path: string, i: nat): (r: Option<nat>)
    requires i <= |mounts|
    ensures r.Some? ==> i <= r.value < |mounts| && mounts[r.value].Some? && mounts[r.value].value.path == path
    ensures r.None? ==> forall k | i <= k < |mounts| && mounts[k].Some? :: mounts[k].value.path != path
    decreases |mounts| - i
  {
    if i == |mounts| then None
    else if mounts[i].Some? && mounts[i].value.path == path then Some(i)
    else MountFrom(mounts, path, i + 1)
  }

  /** The root of the file system mounted at a path. */
  function MountAt(fs: Fs, path: string): Option<Ino> {
    match MountFrom(fs.mounts, path, 0)
    case None => None
    case Some(i) => Some(fs.mounts[i].value.root)
  }

  /** The position of a name in a directory list, or the length of the list. */
  function EntryIndex(entries: seq<Entry>, name: string): (k: nat)
    ensures k <= |entries| && (k < |entries| ==> entries[k].name == name)
    ensures forall i | 0 <= i < k :: entries[i].name != name
  {
    if entries == [] || entries[0].name == name then 0 else 1 + EntryIndex(entries[1..], name)
  }

  /** ramfs_lookup */
  function LookupIn(nodes: map<Ino, Node>, dir: Ino, name: string): Option<Ino> {
    if dir in nodes && nodes[dir].Dir? then
      var k := EntryIndex(nodes[dir].entries, name);
      if k < |nodes[dir].entries| then Some(nodes[dir].entries[k].ino) else None
    else None
  }

  /** Where the path with the given components leads: a mount point leads to the root mounted there, any
      other name is looked up in the directory reached so far. */
  function Reach(fs: Fs, cs: seq<string>): Option<Ino> {
    if cs == [] then Some(fs.root)
    else
      var n := |cs| - 1;
      match Reach(fs, cs[..n])
      case None => None
      case Some(at) =>
        match MountAt(fs, Slashed(cs))
        case Some(r) => Some(r)
        case None => LookupIn(fs.nodes, at, cs[n])
  }

  function NonEmpty(cs: seq<string>): seq<string> {
    if cs == [] then [] else (if cs[0] == "" then [] else [cs[0]]) + NonEmpty(cs[1..])
  }

  /** What vfs_lookup_inode finds. */
  function Lookup(fs: Fs, path: string): Option<Ino> {
    Reach(fs, NonEmpty(Split(path)))
  }

  lemma {:induction false} NonEmptyJoin(a: seq<string>, b: seq<string>)
    ensures NonEmpty(a + b) == NonEmpty(a) + NonEmpty(b)
  {
    if a == [] {
      assert a + b == b;
    } else {
      assert (a + b)[1..] == a[1..] + b;
      NonEmptyJoin(a[1..], b);
    }
  }

  /** The names along a path made of two paths. */
  lemma NamesJoin(a: string, b: string)
    ensures NonEmpty(Split(a + "/" + b)) == NonEmpty(Split(a)) + NonEmpty(Split(b))
  {
    SplitJoin(a, b);
    NonEmptyJoin(Split(a), Split(b));
  }

  lemma OneEmpty()
    ensures NonEmpty(Split("")) == []
  {
    SplitConcat("", "");
  }

  /** Leading and trailing slashes do not matter. */
  lemma OuterSlashes(a: string)
    ensures NonEmpty(Split(a + "/")) == NonEmpty(Split(a)) == NonEmpty(Split("/" + a))
  {
    hide Split, NonEmpty;
    OneEmpty();
    NamesJoin(a, "");
    NamesJoin("", a);
    assert a + "/" + "" == a + "/" && "" + "/" + a == "/" + a;
  }

  /** Repeated slashes do not matter either: one slash more beside another leads to the same place. */
  lemma SlashesDoNotMatter(fs: Fs, a: string, b: string)
    ensures Lookup(fs, a + "/" + "/" + b) == Lookup(fs, a + "/" + b)
    ensures Lookup(fs, a + "/") == Lookup(fs, a) == Lookup(fs, "/" + a)
  {
    hide Split, NonEmpty, Reach;
    OuterSlashes(a);
    OuterSlashes(b);
    NamesJoin(a, b);
    NamesJoin(a, "/" + b);
    assert a + "/" + "/" + b == a + "/" + ("/" + b);
  }

  /** One component further. */
  lemma ReachFurther(fs: Fs, f: seq<string>, c: string)
    ensures Reach(fs, f + [c]) == match Reach(fs, f)
                                  case None => None
                                  case Some(at) => (match MountAt(fs, Slashed(f + [c]))
                                                    case Some(r) => Some(r)
                                                    case None => LookupIn(fs.nodes, at, c))
  {
    var q := f + [c];
    assert q != [] && q[..|q| - 1] == f && q[|q| - 1] == c;
  }

  /** One component further in two trees with the same mounts. */
  lemma SameStep(fs: Fs, fs': Fs, f: seq<string>, c: string)
    requires fs'.mounts == fs.mounts && Reach(fs', f) == Reach(fs, f)
    requires Reach(fs, f).Some? ==> LookupIn(fs'.nodes, Reach(fs, f).value, c) == LookupIn(fs.nodes, Reach(fs, f).value, c)
    ensures Reach(fs', f + [c]) == Reach(fs, f + [c])
  {
    hide Reach, LookupIn, Slashed;
    ReachFurther(fs, f, c);
    ReachFurther(fs', f, c);
  }

  /** Once a path leads nowhere no longer path leads anywhere. */
  lemma {:induction false} NowhereStays(fs: Fs, a: seq<string>, b: seq<string>)
    requires Reach(fs, a) == None
    ensures Reach(fs, a + b) == None
    decreases |b|
  {
    if b == [] {
      assert a + b == a;
    } else {
      assert (a + b)[..|a + b| - 1] == a + b[..|b| - 1];
      NowhereStays(fs, a, b[..|b| - 1]);
    }
  }

  // ---------------------------------------------------------------- trees

  /** The names are names, and no two are the same. */
  ghost predicate NamesApart(entries: seq<Entry>) {
    && (forall i | 0 <= i < |entries| :: IsName(entries[i].name))
    && (forall i, j | 0 <= i < j < |entries| :: entries[i].name != entries[j].name)
  }

  ghost predicate HasEntry(fs: Fs, d: Ino, i: nat, ino: Ino) {
    d in fs.nodes && fs.nodes[d].Dir? && i < |fs.nodes[d].entries| && fs.nodes[d].entries[i].ino == ino
  }

  predicate IsMountRoot(fs: Fs, ino: Ino) {
    exists k :: 0 <= k < |fs.mounts| && fs.mounts[k].Some? && fs.mounts[k].value.root == ino
  }

  /** Nothing has two names, and neither the root nor what is mounted has an entry anywhere. */
  ghost predicate Tree(fs: Fs) {
    && (forall d | d in fs.nodes && fs.nodes[d].Dir? :: NamesApart(fs.nodes[d].entries))
    && (forall d, i, e, j, ino | HasEntry(fs, d, i, ino) && HasEntry(fs, e, j, ino) :: d == e && i == j)
    && (forall d, i, ino | HasEntry(fs, d, i, ino) :: ino in fs.nodes && ino != fs.root && !IsMountRoot(fs, ino))
    && fs.root in fs.nodes && !IsMountRoot(fs, fs.root)
    && (forall j, k | 0 <= j < k < |fs.mounts| && fs.mounts[j].Some? && fs.mounts[k].Some? ::
          fs.mounts[j].value.root != fs.mounts[k].value.root)
  }

  /** How the last step to a place was made. */
  ghost predicate Arrived(fs: Fs, cs: seq<string>, ino: Ino)
    requires cs != []
  {
    match MountFrom(fs.mounts, Slashed(cs), 0)
    case Some(k) => fs.mounts[k].value.root == ino
    case None =>
      match Reach(fs, cs[..|cs| - 1])
      case None => false
      case Some(at) => LookupIn(fs.nodes, at, cs[|cs| - 1]) == Some(ino)
  }

  lemma LookupHasEntry(fs: Fs, at: Ino, name: string, ino: Ino)
    requires LookupIn(fs.nodes, at, name) == Some(ino)
    ensures var k := EntryIndex(fs.nodes[at].entries, name); HasEntry(fs, at, k, ino) && fs.nodes[at].entries[k].name == name
  {
  }

  /** Paths of names are told apart by their text. */
  lemma SlashedInjective(a: seq<string>, b: seq<string>)
    requires Plain(a) && Plain(b) && Slashed(a) == Slashed(b)
    ensures a == b
  {
    SlashedLength(a);
    SlashedLength(b);
    if a != [] && b != [] {
      SlashedSplit(a);
      SlashedSplit(b);
    } else {
      EmptyWeight(a);
      EmptyWeight(b);
    }
  }

  lemma EmptyWeight(a: seq<string>)
    ensures Weight(a) == 0 <==> a == []
  {
  }

  /** No two paths lead to the same place. */
  lemma {:induction false} UniquePath(fs: Fs, a: seq<string>, b: seq<string>, ino: Ino)
    requires Tree(fs) && Plain(a) && Plain(b) && Reach(fs, a) == Some(ino) == Reach(fs, b)
    ensures a == b
    decreases |a| + |b|
  {
    hide Reach, Slashed, MountFrom, Tree, LookupIn, HasEntry;
    if a == [] {
      RootReached(fs);
      if b != [] { LastStep(fs, b, ino); }
    } else if b == [] {
      RootReached(fs);
      LastStep(fs, a, ino);
    } else {
      var m, n := |a| - 1, |b| - 1;
      var i, j := MountFrom(fs.mounts, Slashed(a), 0), MountFrom(fs.mounts, Slashed(b), 0);
      LastStep(fs, a, ino);
      LastStep(fs, b, ino);
      if i.Some? && j.Some? {
        OneMount(fs, i.value, j.value);
        SlashedInjective(a, b);
      } else {
        var at, bt := Reach(fs, a[..m]).value, Reach(fs, b[..n]).value;
        OneEntry(fs, at, a[m], bt, b[n], ino);
        UniquePath(fs, a[..m], b[..n], at);
        assert a == a[..m] + [a[m]] && b == b[..n] + [b[n]];
      }
    }
  }

  lemma RootReached(fs: Fs)
    ensures Reach(fs, []) == Some(fs.root)
  {
  }

  lemma OneMount(fs: Fs, j: nat, k: nat)
    requires Tree(fs) && j < |fs.mounts| && k < |fs.mounts| && fs.mounts[j].Some? && fs.mounts[k].Some?
    requires fs.mounts[j].value.root == fs.mounts[k].value.root
    ensures j == k
  {
  }

  lemma OneEntry(fs: Fs, at: Ino, a: string, bt: Ino, b: string, ino: Ino)
    requires Tree(fs) && LookupIn(fs.nodes, at, a) == Some(ino) && LookupIn(fs.nodes, bt, b) == Some(ino)
    ensures at == bt && a == b
  {
    LookupHasEntry(fs, at, a, ino);
    LookupHasEntry(fs, bt, b, ino);
  }

  /** A place reached by a path is a mounted root exactly if the last step was a jump. */
  lemma LastStep(fs: Fs, cs: seq<string>, ino: Ino)
    requires Tree(fs) && cs != [] && Reach(fs, cs) == Some(ino)
    ensures Arrived(fs, cs, ino) && Reach(fs, cs[..|cs| - 1]).Some? && ino != fs.root
    ensures MountFrom(fs.mounts, Slashed(cs), 0).Some? <==> IsMountRoot(fs, ino)
  {
    var at := Reach(fs, cs[..|cs| - 1]).value;
    match MountFrom(fs.mounts, Slashed(cs), 0)
    case Some(k) =>
    case None => LookupHasEntry(fs, at, cs[|cs| - 1], ino);
  }

  // ---------------------------------------------------------------- new entries

  /** ramfs_create and ramfs_mkdir of a name that the directory does not have. */
  function Added(fs: Fs, d: Ino, name: string, ino: Ino, node: Node): Fs
    requires d in fs.nodes && fs.nodes[d].Dir?
  {
    fs.(nodes := fs.nodes[d := Dir([Entry(name, ino)] + fs.nodes[d].entries)][ino := node])
  }

  ghost predicate CanAdd(fs: Fs, d: Ino, name: string, ino: Ino, node: Node) {
    && Tree(fs) && d in fs.nodes && fs.nodes[d].Dir? && LookupIn(fs.nodes, d, name) == None && IsName(name)
    && ino !in fs.nodes && !IsMountRoot(fs, ino) && (node.Dir? ==> node.entries == [])
  }

  lemma AddedTree(fs: Fs, d: Ino, name: string, ino: Ino, node: Node)
    requires CanAdd(fs, d, name, ino, node)
    ensures Tree(Added(fs, d, name, ino, node))
  {
    var fs' := Added(fs, d, name, ino, node);
    forall e, i: nat, x | HasEntry(fs', e, i, x)
      ensures if e == d && i == 0 then x == ino else HasEntry(fs, e, if e == d then i - 1 else i, x)
    {
    }
    assert forall x :: IsMountRoot(fs', x) <==> IsMountRoot(fs, x);
    assert forall e, i, x | HasEntry(fs, e, i, x) :: x != ino;
    forall e | e in fs'.nodes && fs'.nodes[e].Dir? ensures NamesApart(fs'.nodes[e].entries) {
      if e == d {
        assert NamesApart(fs.nodes[d].entries);
        assert EntryIndex(fs.nodes[d].entries, name) == |fs.nodes[d].entries|;
      }
    }
  }

  /** A new entry answers to its own name and changes no other. */
  lemma AddedLookup(fs: Fs, d: Ino, name: string, ino: Ino, node: Node, at: Ino, c: string)
    requires CanAdd(fs, d, name, ino, node)
    ensures LookupIn(Added(fs, d, name, ino, node).nodes, at, c) ==
            if at == d && c == name then Some(ino) else LookupIn(fs.nodes, at, c)
  {
    var es := fs.nodes[d].entries;
    assert ([Entry(name, ino)] + es)[1..] == es;
  }

  /** Mounts right below a path. */
  ghost predicate MountBelow(fs: Fs, p: seq<string>) {
    exists x :: IsName(x) && MountAt(fs, Slashed(p + [x])).Some?
  }

  lemma {:induction false} AddedReach(fs: Fs, p: seq<string>, d: Ino, name: string, ino: Ino, node: Node, q: seq<string>)
    requires CanAdd(fs, d, name, ino, node) && Plain(p) && Reach(fs, p) == Some(d) && Plain(q)
    requires MountAt(fs, Slashed(p + [name])) == None && !MountBelow(fs, p + [name])
    ensures Reach(Added(fs, d, name, ino, node), q) == if q == p + [name] then Some(ino) else Reach(fs, q)
    decreases |q|
  {
    if q != [] {
      var n := |q| - 1;
      var fs' := Added(fs, d, name, ino, node);
      var f, c := q[..n], q[n];
      assert q == f + [c] && IsName(c) && Plain(f) && f != q;
      AddedReach(fs, p, d, name, ino, node, f);
      ReachFurther(fs, f, c);
      ReachFurther(fs', f, c);
      SameMounts(fs, fs', Slashed(f + [c]));
      hide Reach, Slashed, LookupIn, Tree, Added, MountAt, Plain, IsName;
      if f == p + [name] {
        NewIsMissing(fs, p, d, name);
        AddedLookup(fs, d, name, ino, node, ino, c);
        FreshIsEmpty(fs, ino, c);
      } else if Reach(fs, f).Some? {
        var at := Reach(fs, f).value;
        if at == d { UniquePath(fs, f, p, d); }
        AddedLookup(fs, d, name, ino, node, at, c);
      }
    }
  }

  lemma SameMounts(fs: Fs, fs': Fs, path: string)
    requires fs'.mounts == fs.mounts
    ensures MountAt(fs', path) == MountAt(fs, path)
  {
  }

  lemma FreshIsEmpty(fs: Fs, ino: Ino, c: string)
    requires ino !in fs.nodes
    ensures LookupIn(fs.nodes, ino, c) == None
  {
  }

  lemma NewIsMissing(fs: Fs, p: seq<string>, d: Ino, name: string)
    requires Reach(fs, p) == Some(d) && LookupIn(fs.nodes, d, name) == None && MountAt(fs, Slashed(p + [name])) == None
    ensures Reach(fs, p + [name]) == None
  {
    assert (p + [name])[..|p|] == p;
  }

  /** Creating a file or directory at an unmounted path makes that path lead to it, and changes what no other
      path leads to - exactly if nothing is mounted right below. */
  lemma CreateChangesOnePath(fs: Fs, p: seq<string>, d: Ino, name: string, ino: Ino, node: Node)
    requires CanAdd(fs, d, name, ino, node) && Plain(p) && Reach(fs, p) == Some(d)
    requires MountAt(fs, Slashed(p + [name])) == None
    ensures Tree(Added(fs, d, name, ino, node))
    ensures Reach(fs, p + [name]) == None && Reach(Added(fs, d, name, ino, node), p + [name]) == Some(ino)
    ensures (forall q | Plain(q) && q != p + [name] :: Reach(Added(fs, d, name, ino, node), q) == Reach(fs, q))
            <==> !MountBelow(fs, p + [name])
  {
    var fs' := Added(fs, d, name, ino, node);
    AddedTree(fs, d, name, ino, node);
    NewIsMissing(fs, p, d, name);
    NewIsThere(fs, p, d, name, ino, node);
    hide Tree, LookupIn, Slashed, CanAdd;
    if MountBelow(fs, p + [name]) {
      var x := SeenBelow(fs, fs', p + [name]);
      assert Plain(p + [name] + [x]);
    } else {
      forall q | Plain(q) && q != p + [name] ensures Reach(fs', q) == Reach(fs, q) {
        AddedReach(fs, p, d, name, ino, node, q);
      }
    }
  }

  /** A mount point below a path is reached exactly when the path leads somewhere. */
  lemma SeenBelow(fs: Fs, fs': Fs, f: seq<string>) returns (x: string)
    requires MountBelow(fs, f) && fs'.mounts == fs.mounts && (Reach(fs, f) == None <==> Reach(fs', f) != None)
    ensures IsName(x) && Reach(fs', f + [x]) != Reach(fs, f + [x])
  {
    x :| IsName(x) && MountAt(fs, Slashed(f + [x])).Some?;
    SameMounts(fs, fs', Slashed(f + [x]));
    ReachFurther(fs, f, x);
    ReachFurther(fs', f, x);
  }

  /** The new path works even if something is mounted below it. */
  lemma NewIsThere(fs: Fs, p: seq<string>, d: Ino, name: string, ino: Ino, node: Node)
    requires CanAdd(fs, d, name, ino, node) && Plain(p) && Reach(fs, p) == Some(d)
    requires MountAt(fs, Slashed(p + [name])) == None
    ensures Reach(Added(fs, d, name, ino, node), p + [name]) == Some(ino)
  {
    var fs' := Added(fs, d, name, ino, node);
    PrefixKept(fs, p, d, name, ino, node, |p|);
    assert p[..|p|] == p && (p + [name])[..|p|] == p;
    AddedLookup(fs, d, name, ino, node, d, name);
    assert MountAt(fs', Slashed(p + [name])) == None;
  }

  /** The way to the directory itself does not go through the new entry. */
  lemma {:induction false} PrefixKept(fs: Fs, p: seq<string>, d: Ino, name: string, ino: Ino, node: Node, n: nat)
    requires CanAdd(fs, d, name, ino, node) && Plain(p) && Reach(fs, p) == Some(d) && n <= |p|
    ensures Reach(fs, p[..n]).Some? && Reach(Added(fs, d, name, ino, node), p[..n]) == Reach(fs, p[..n])
  {
    WayExists(fs, p, d, n);
    if n > 0 {
      PrefixKept(fs, p, d, name, ino, node, n - 1);
      WayExists(fs, p, d, n - 1);
      var at := Reach(fs, p[..n - 1]).value;
      if at == d { UniquePath(fs, p[..n - 1], p, d); }
      AddedLookup(fs, d, name, ino, node, at, p[n - 1]);
      hide Slashed, Tree, LookupIn;
      assert p[..n][..n - 1] == p[..n - 1] && p[..n] != [] && p[..n][n - 1] == p[n - 1];
    }
  }

  lemma WayExists(fs: Fs, p: seq<string>, d: Ino, n: nat)
    requires Reach(fs, p) == Some(d) && n <= |p|
    ensures Reach(fs, p[..n]).Some?
  {
    hide Reach;
    assert p[..n] + p[n..] == p;
    if Reach(fs, p[..n]) == None { NowhereStays(fs, p[..n], p[n..]); }
  }

  // ---------------------------------------------------------------- removing entries

  /** ramfs_unlink and ramfs_rmdir of entry k. */
  function Removed(fs: Fs, d: Ino, k: nat): Fs
    requires d in fs.nodes && fs.nodes[d].Dir? && k < |fs.nodes[d].entries|
  {
    var es := fs.nodes[d].entries;
    fs.(nodes := fs.nodes[d := Dir(es[..k] + es[k + 1..])] - {es[k].ino})
  }

  /** A file, or a directory with nothing in it. */
  predicate Childless(node: Node) {
    node.Dir? ==> node.entries == []
  }

  ghost predicate CanRemove(fs: Fs, d: Ino, k: nat) {
    && Tree(fs) && d in fs.nodes && fs.nodes[d].Dir? && k < |fs.nodes[d].entries|
    && fs.nodes[d].entries[k].ino in fs.nodes && Childless(fs.nodes[fs.nodes[d].entries[k].ino])
  }

  lemma RemovedApart(fs: Fs, d: Ino, k: nat)
    requires CanRemove(fs, d, k)
    ensures fs.nodes[d].entries[k].ino != d && HasEntry(fs, d, k, fs.nodes[d].entries[k].ino)
  {
  }

  lemma RemovedTree(fs: Fs, d: Ino, k: nat)
    requires CanRemove(fs, d, k)
    ensures Tree(Removed(fs, d, k))
  {
    var fs' := Removed(fs, d, k);
    RemovedApart(fs, d, k);
    var es := fs.nodes[d].entries;
    forall e, i: nat, x | HasEntry(fs', e, i, x)
      ensures HasEntry(fs, e, if e == d && i >= k then i + 1 else i, x) && x != es[k].ino
    {
      assert HasEntry(fs, e, if e == d && i >= k then i + 1 else i, x);
    }
    assert forall x :: IsMountRoot(fs', x) <==> IsMountRoot(fs, x);
    forall e | e in fs'.nodes && fs'.nodes[e].Dir? ensures NamesApart(fs'.nodes[e].entries) {
      assert NamesApart(fs.nodes[e].entries);
    }
  }

  lemma EntryIndexUnique(es: seq<Entry>, i: nat)
    requires NamesApart(es) && i < |es|
    ensures EntryIndex(es, es[i].name) == i
  {
    var k := EntryIndex(es, es[i].name);
    assert k <= i;
  }

  lemma EntryIndexMissing(es: seq<Entry>, name: string)
    requires forall i | 0 <= i < |es| :: es[i].name != name
    ensures EntryIndex(es, name) == |es|
  {
  }

  /** The entry no longer answers, and every other one as before. */
  lemma RemovedLookup(fs: Fs, d: Ino, k: nat, at: Ino, c: string)
    requires CanRemove(fs, d, k) && at != fs.nodes[d].entries[k].ino
    ensures LookupIn(Removed(fs, d, k).nodes, at, c) ==
            if at == d && c == fs.nodes[d].entries[k].name then None else LookupIn(fs.nodes, at, c)
  {
    if at == d {
      CutEntryIndex(fs.nodes[d].entries, k, c);
    }
  }

  lemma CutEntryIndex(es: seq<Entry>, k: nat, c: string)
    requires NamesApart(es) && k < |es|
    ensures var r := es[..k] + es[k + 1..];
            var i, j := EntryIndex(r, c), EntryIndex(es, c);
            if j == |es| || c == es[k].name then i == |r| else i < |r| && r[i] == es[j]
  {
    var r := es[..k] + es[k + 1..];
    var j := EntryIndex(es, c);
    CutNames(es, k);
    EntryIndexUnique(es, k);
    hide EntryIndex;
    if j == |es| || j == k {
      EntryIndexMissing(r, c);
    } else {
      var i := if j < k then j else j - 1;
      assert r[i] == es[j];
      hide NamesApart;
      EntryIndexUnique(r, i);
    }
  }

  lemma CutNames(es: seq<Entry>, k: nat)
    requires NamesApart(es) && k < |es|
    ensures var r := es[..k] + es[k + 1..];
            && NamesApart(r)
            && (forall i | 0 <= i < |r| :: r[i] == es[if i < k then i else i + 1])
            && (forall i | 0 <= i < |r| :: r[i].name != es[k].name)
  {
  }

  lemma {:induction false} RemovedReach(fs: Fs, p: seq<string>, d: Ino, k: nat, q: seq<string>)
    requires CanRemove(fs, d, k) && Plain(p) && Reach(fs, p) == Some(d) && Plain(q)
    requires var gone := p + [fs.nodes[d].entries[k].name];
             MountAt(fs, Slashed(gone)) == None && !MountBelow(fs, gone)
    ensures Reach(Removed(fs, d, k), q) == if q == p + [fs.nodes[d].entries[k].name] then None else Reach(fs, q)
    decreases |q|
  {
    if q != [] {
      var n := |q| - 1;
      assert q == q[..n] + [q[n]] && IsName(q[n]) && Plain(q[..n]);
      hide IsName, Plain, CanRemove, MountBelow, Removed, Reach, Slashed;
      RemovedReach(fs, p, d, k, q[..n]);
      RemovedFurther(fs, p, d, k, q[..n], q[n]);
    }
  }

  lemma RemovedFurther(fs: Fs, p: seq<string>, d: Ino, k: nat, f: seq<string>, c: string)
    requires CanRemove(fs, d, k) && Plain(p) && Reach(fs, p) == Some(d) && Plain(f) && IsName(c)
    requires var gone := p + [fs.nodes[d].entries[k].name];
             && MountAt(fs, Slashed(gone)) == None && !MountBelow(fs, gone)
             && Reach(Removed(fs, d, k), f) == if f == gone then None else Reach(fs, f)
    ensures Reach(Removed(fs, d, k), f + [c]) ==
            if f + [c] == p + [fs.nodes[d].entries[k].name] then None else Reach(fs, f + [c])
  {
    var fs' := Removed(fs, d, k);
    var e := fs.nodes[d].entries[k];
    ReachFurther(fs, f, c);
    ReachFurther(fs', f, c);
    SameMounts(fs, fs', Slashed(f + [c]));
    GoneWasThere(fs, p, d, k);
    ChildlessLookup(fs, e.ino, c);
    assert e.name == (p + [e.name])[|p|] && (p + [e.name])[..|p|] == p;
    assert c == (f + [c])[|f|] && (f + [c])[..|f|] == f;
    assert Plain(p + [e.name]);
    if f == p + [e.name] {
      NoMountBelow(fs, f, c);
    } else if Reach(fs, f).Some? {
      var at := Reach(fs, f).value;
      hide Reach, Slashed, LookupIn, Tree, Removed, MountAt, Plain, IsName, MountBelow;
      if at == e.ino { UniquePath(fs, f, p + [e.name], at); }
      if at == d { UniquePath(fs, f, p, d); }
      RemovedLookup(fs, d, k, at, c);
    }
  }

  lemma NoMountBelow(fs: Fs, p: seq<string>, c: string)
    requires !MountBelow(fs, p) && IsName(c)
    ensures MountAt(fs, Slashed(p + [c])) == None
  {
  }

  lemma ChildlessLookup(fs: Fs, ino: Ino, c: string)
    requires ino in fs.nodes && Childless(fs.nodes[ino])
    ensures LookupIn(fs.nodes, ino, c) == None
  {
  }

  lemma GoneWasThere(fs: Fs, p: seq<string>, d: Ino, k: nat)
    requires CanRemove(fs, d, k) && Plain(p) && Reach(fs, p) == Some(d)
    requires MountAt(fs, Slashed(p + [fs.nodes[d].entries[k].name])) == None
    ensures Reach(fs, p + [fs.nodes[d].entries[k].name]) == Some(fs.nodes[d].entries[k].ino)
  {
    var e := fs.nodes[d].entries[k];
    assert (p + [e.name])[..|p|] == p;
    assert NamesApart(fs.nodes[d].entries);
    EntryIndexUnique(fs.nodes[d].entries, k);
  }

  /** Removing a file or an empty directory at an unmounted path makes that path lead nowhere, and changes what
      no other path leads to - exactly if nothing is mounted right below. */
  lemma RemoveChangesOnePath(fs: Fs, p: seq<string>, d: Ino, k: nat)
    requires CanRemove(fs, d, k) && Plain(p) && Reach(fs, p) == Some(d)
    requires MountAt(fs, Slashed(p + [fs.nodes[d].entries[k].name])) == None
    ensures Tree(Removed(fs, d, k))
    ensures var gone := p + [fs.nodes[d].entries[k].name];
            && Reach(fs, gone) == Some(fs.nodes[d].entries[k].ino) && Reach(Removed(fs, d, k), gone) == None
            && ((forall q | Plain(q) && q != gone :: Reach(Removed(fs, d, k), q) == Reach(fs, q))
                <==> !MountBelow(fs, gone))
  {
    var fs' := Removed(fs, d, k);
    var gone := p + [fs.nodes[d].entries[k].name];
    RemovedTree(fs, d, k);
    GoneWasThere(fs, p, d, k);
    NowGone(fs, p, d, k);
    if MountBelow(fs, gone) {
      var x := SeenBelow(fs, fs', gone);
      assert Plain(gone + [x]);
    } else {
      forall q | Plain(q) && q != gone ensures Reach(fs', q) == Reach(fs, q) {
        RemovedReach(fs, p, d, k, q);
      }
    }
  }

  lemma NowGone(fs: Fs, p: seq<string>, d: Ino, k: nat)
    requires CanRemove(fs, d, k) && Plain(p) && Reach(fs, p) == Some(d)
    requires MountAt(fs, Slashed(p + [fs.nodes[d].entries[k].name])) == None
    ensures Reach(Removed(fs, d, k), p + [fs.nodes[d].entries[k].name]) == None
  {
    var fs' := Removed(fs, d, k);
    var gone := p + [fs.nodes[d].entries[k].name];
    RemovedPrefix(fs, p, d, k, |p|);
    assert p[..|p|] == p && gone[..|gone| - 1] == p;
    RemovedApart(fs, d, k);
    RemovedLookup(fs, d, k, d, fs.nodes[d].entries[k].name);
    assert MountAt(fs', Slashed(gone)) == None;
  }

  /** An entry of the directory at p is reached by no other path than its own. */
  lemma EntryReached(fs: Fs, p: seq<string>, d: Ino, k: nat, f: seq<string>)
    requires CanRemove(fs, d, k) && Plain(p) && Reach(fs, p) == Some(d) && Plain(f)
    requires Reach(fs, f) == Some(fs.nodes[d].entries[k].ino)
    ensures f == p + [fs.nodes[d].entries[k].name]
  {
    var e := fs.nodes[d].entries[k];
    RemovedApart(fs, d, k);
    assert LookupIn(fs.nodes, d, e.name) == Some(e.ino) by {
      assert NamesApart(fs.nodes[d].entries);
      EntryIndexUnique(fs.nodes[d].entries, k);
    }
    RootReached(fs);
    assert f != [] && !IsMountRoot(fs, e.ino);
    var n := |f| - 1;
    LastStep(fs, f, e.ino);
    assert Plain(f[..n]) && f == f[..n] + [f[n]];
    hide Tree, Reach, LookupIn, HasEntry, CanRemove;
    OneEntry(fs, Reach(fs, f[..n]).value, f[n], d, e.name, e.ino);
    UniquePath(fs, f[..n], p, d);
  }

  /** The way to the directory does not go through the entry that is removed. */
  lemma {:induction false} RemovedPrefix(fs: Fs, p: seq<string>, d: Ino, k: nat, n: nat)
    requires CanRemove(fs, d, k) && Plain(p) && Reach(fs, p) == Some(d) && n <= |p|
    ensures Reach(fs, p[..n]).Some? && Reach(Removed(fs, d, k), p[..n]) == Reach(fs, p[..n])
  {
    hide Reach, CanRemove, Removed, Plain, Tree;
    WayExists(fs, p, d, n);
    if n == 0 {
      RemovedAtRoot(fs, d, k);
      assert p[..n] == [];
    } else {
      RemovedPrefix(fs, p, d, k, n - 1);
      WayAvoids(fs, p, d, k, n - 1);
      RemovedFurtherOn(fs, d, k, p[..n - 1], p[n - 1]);
      assert p[..n] == p[..n - 1] + [p[n - 1]];
    }
  }

  lemma RemovedAtRoot(fs: Fs, d: Ino, k: nat)
    requires CanRemove(fs, d, k)
    ensures Reach(Removed(fs, d, k), []) == Reach(fs, [])
  {
  }

  lemma RemovedFurtherOn(fs: Fs, d: Ino, k: nat, f: seq<string>, c: string)
    requires CanRemove(fs, d, k) && Reach(fs, f).Some? && Reach(Removed(fs, d, k), f) == Reach(fs, f)
    requires Reach(fs, f).value != d && Reach(fs, f).value != fs.nodes[d].entries[k].ino
    ensures Reach(Removed(fs, d, k), f + [c]) == Reach(fs, f + [c])
  {
    var fs', at := Removed(fs, d, k), Reach(fs, f).value;
    assert fs'.mounts == fs.mounts;
    RemovedLookup(fs, d, k, at, c);
    hide Reach, CanRemove, Removed, LookupIn;
    SameStep(fs, fs', f, c);
  }

  lemma WayAvoids(fs: Fs, p: seq<string>, d: Ino, k: nat, m: nat)
    requires CanRemove(fs, d, k) && Plain(p) && Reach(fs, p) == Some(d) && m < |p|
    ensures Reach(fs, p[..m]) != Some(fs.nodes[d].entries[k].ino) && Reach(fs, p[..m]) != Some(d)
  {
    hide Reach, Tree;
    assert Plain(p[..m]) && |p[..m]| == m;
    if Reach(fs, p[..m]) == Some(fs.nodes[d].entries[k].ino) { EntryReached(fs, p, d, k, p[..m]); }
    if Reach(fs, p[..m]) == Some(d) { UniquePath(fs, p[..m], p, d); }
  }

  /** Removing an entry of a directory changes nothing about the directory's other names. */
  lemma OtherNameKept(fs: Fs, p: seq<string>, d: Ino, k: nat, c: string)
    requires CanRemove(fs, d, k) && Plain(p) && Reach(fs, p) == Some(d) && c != fs.nodes[d].entries[k].name
    ensures Reach(Removed(fs, d, k), p + [c]) == Reach(fs, p + [c])
  {
    var fs' := Removed(fs, d, k);
    RemovedPrefix(fs, p, d, k, |p|);
    assert p[..|p|] == p;
    RemovedApart(fs, d, k);
    RemovedLookup(fs, d, k, d, c);
    SameStep(fs, fs', p, c);
  }

  // ---------------------------------------------------------------- mounting

  /** No path is mounted twice. */
  ghost predicate PathsApart(ms: seq<Option<Mount>>) {
    forall j, k | 0 <= j < k < |ms| && ms[j].Some? && ms[k].Some? :: ms[j].value.path != ms[k].value.path
  }

  function FreeSlot(ms: seq<Option<Mount>>, i: nat): (r: Option<nat>)
    requires i <= |ms|
    ensures r.Some? ==> i <= r.value < |ms| && ms[r.value].None?
    ensures r.None? ==> forall k | i <= k < |ms| :: ms[k].Some?
    decreases |ms| - i
  {
    if i == |ms| then None else if ms[i].None? then Some(i) else FreeSlot(ms, i + 1)
  }

  /** What the table's buffer of 256 bytes keeps of a path. */
  function StoredPath(path: string): (r: string)
    ensures |r| <= 255
  {
    if |path| <= 255 then path else path[..255]
  }

  /** mount_fs; `mounted` is the root of what was found on the device, if that worked. */
  function MountedAt(fs: Fs, path: string, mounted: Option<Ino>): (int, Fs) {
    if MountAt(fs, path).Some? then (-2, fs)
    else
      var slot := FreeSlot(fs.mounts, 0);
      if slot.None? || mounted.None? then (-1, fs)
      else (0, fs.(mounts := fs.mounts[slot.value := Some(Mount(StoredPath(path), mounted.value))]))
  }

  /** unmount_fs */
  function UnmountedAt(fs: Fs, path: string): (int, Fs) {
    match MountFrom(fs.mounts, path, 0)
    case None => (-1, fs)
    case Some(k) => (0, fs.(mounts := fs.mounts[k := None]))
  }

  /** A slot that does not answer to the path may change into another that does not. */
  lemma {:induction false} SameSearch(ms: seq<Option<Mount>>, ms': seq<Option<Mount>>, q: string, slot: nat, i: nat)
    requires slot < |ms| && |ms'| == |ms| && ms' == ms[slot := ms'[slot]] && i <= |ms|
    requires ms[slot].Some? ==> ms[slot].value.path != q
    requires ms'[slot].Some? ==> ms'[slot].value.path != q
    ensures MountFrom(ms', q, i) == MountFrom(ms, q, i)
    decreases |ms| - i
  {
    if i < |ms| { SameSearch(ms, ms', q, slot, i + 1); }
  }

  /** Mounting makes the path a mount point and changes no other. */
  lemma MountChangesOnePoint(fs: Fs, path: string, mounted: Option<Ino>, q: string)
    requires |path| <= 255
    ensures var (r, fs') := MountedAt(fs, path, mounted);
            MountAt(fs', q) == if r == 0 && q == path then mounted else MountAt(fs, q)
  {
    var (r, fs') := MountedAt(fs, path, mounted);
    if r == 0 {
      var slot := FreeSlot(fs.mounts, 0).value;
      if q != path {
        SameSearch(fs.mounts, fs'.mounts, q, slot, 0);
      } else {
        assert fs'.mounts[slot] == Some(Mount(path, mounted.value));
        assert forall k | 0 <= k < |fs.mounts| && k != slot :: fs'.mounts[k] == fs.mounts[k];
      }
    }
  }

  /** Unmounting makes the path no mount point, if it was mounted once, and changes no other. */
  lemma UnmountChangesOnePoint(fs: Fs, path: string, q: string)
    requires PathsApart(fs.mounts)
    ensures MountAt(UnmountedAt(fs, path).1, q) == if q == path then None else MountAt(fs, q)
  {
    var fs' := UnmountedAt(fs, path).1;
    if k :| MountFrom(fs.mounts, path, 0) == Some(k) {
      if q != path { SameSearch(fs.mounts, fs'.mounts, q, k, 0); }
    }
  }

  /** An inode that is nobody's yet. */
  ghost predicate Unused(fs: Fs, ino: Ino) {
    ino != fs.root && !IsMountRoot(fs, ino) && forall d, i, x | HasEntry(fs, d, i, x) :: x != ino
  }

  /** Mounting a root of its own, and unmounting, keep the tree. */
  lemma MountKeeps(fs: Fs, path: string, mounted: Option<Ino>)
    requires Tree(fs) && (mounted.Some? ==> Unused(fs, mounted.value))
    ensures Tree(MountedAt(fs, path, mounted).1)
  {
    var (r, fs') := MountedAt(fs, path, mounted);
    if r == 0 {
      assert forall d, i, x :: HasEntry(fs', d, i, x) <==> HasEntry(fs, d, i, x);
      forall x ensures IsMountRoot(fs', x) ==> IsMountRoot(fs, x) || x == mounted.value {}
      assert forall k | 0 <= k < |fs.mounts| && fs.mounts[k].Some? :: IsMountRoot(fs, fs.mounts[k].value.root);
    }
  }

  lemma UnmountKeeps(fs: Fs, path: string)
    requires Tree(fs)
    ensures Tree(UnmountedAt(fs, path).1)
  {
    var fs' := UnmountedAt(fs, path).1;
    assert forall d, i, x :: HasEntry(fs', d, i, x) <==> HasEntry(fs, d, i, x);
    forall x ensures IsMountRoot(fs', x) ==> IsMountRoot(fs, x) {}
  }

  /** They keep the mounted paths apart, if those fit the table. */
  lemma MountKeepsApart(fs: Fs, path: string, mounted: Option<Ino>)
    ensures PathsApart(fs.mounts) && |path| <= 255 ==> PathsApart(MountedAt(fs, path, mounted).1.mounts)
  {
  }

  lemma UnmountKeepsApart(fs: Fs, path: string)
    ensures PathsApart(fs.mounts) ==> PathsApart(UnmountedAt(fs, path).1.mounts)
  {
  }
}

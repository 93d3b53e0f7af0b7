/** The loops of src/fs/vfs.c, src/fs/ramfs.c and src/fs/mount.c over paths, directory lists and the mount
    table. */
module VfsFiles {
  import opened Common
  import opened Paths
  import opened Vfs

  const MOUNTS := 8
  /** Up to this length, not counting a leading slash, no buffer of the lookup overflows. */
  const LONGEST := 254

  /** An absolute path without empty components, short enough for the buffers of the lookup; "." and ".." are
      names like others. */
  ghost predicate Clean(p: string) {
    p != "" && p[0] == '/' && |p| <= 1 + LONGEST && Plain(Names(p))
  }

  lemma {:induction false} WeightBound(cs: seq<string>, i: nat)
    requires i < |cs|
    ensures |cs[i]| < Weight(cs)
  {
    if i > 0 { WeightBound(cs[1..], i - 1); }
  }

  /** No name of a clean path overflows the component buffer. */
  lemma NamesFit(p: string)
    requires Clean(p)
    ensures forall i | 0 <= i < |Names(p)| :: |Names(p)[i]| <= LONGEST
  {
    RenderOfNames(p);
    SlashedLength(Names(p));
    forall i | 0 <= i < |Names(p)| ensures |Names(p)[i]| <= LONGEST {
      WeightBound(Names(p), i);
    }
  }

  ghost predicate Fitting(cs: seq<string>) {
    forall i | 0 <= i < |cs| :: |cs[i]| <= LONGEST
  }

  /** The components of clean paths are what Split finds, and none is empty. */
  lemma NamesOfPath(p: string)
    requires Clean(p)
    ensures NonEmpty(Split(p)) == Names(p)
  {
    SplitAbsolute(p);
    if p == "/" {
      OneEmpty();
    } else {
      ProperStay(Names(p));
      assert NonEmpty([""] + Names(p)) == NonEmpty(Names(p)) by {
        NonEmptyJoin([""], Names(p));
        OneEmpty();
        SplitConcat("", "");
      }
    }
  }

  lemma {:induction false} ProperStay(cs: seq<string>)
    requires Plain(cs)
    ensures NonEmpty(cs) == cs
  {
    if cs != [] {
      assert IsName(cs[0]);
      ProperStay(cs[1..]);
    }
  }

  lemma SlashedFurther(cs: seq<string>, c: string)
    ensures Slashed(cs + [c]) == Slashed(cs) + "/" + c
  {
    assert (cs + [c])[..|cs|] == cs;
  }

  /** The components left at a position of a text that ends at `end`. */
  function Left(text: string, pos: nat, end: nat): seq<string>
    requires end <= |text|
  {
    if pos > end then [] else NonEmpty(Split(text[pos..end]))
  }

  /** The text from pos to k is all that comes before the next slash or the end. */
  predicate Chunk(text: string, pos: nat, k: nat, end: nat) {
    pos <= k <= end <= |text| && '/' !in text[pos..k] && (k < end ==> text[k] == '/')
  }

  lemma EmptyChunk(text: string, pos: nat, end: nat)
    requires Chunk(text, pos, pos, end) && pos < end
    ensures text[pos] == '/'
  {
  }

  lemma Regroup(done: seq<string>, name: string, rest: seq<string>)
    ensures done + ([name] + rest) == (done + [name]) + rest
  {
  }

  lemma SlashLeft(text: string, pos: nat, end: nat)
    requires pos < end <= |text| && text[pos] == '/'
    ensures Left(text, pos, end) == Left(text, pos + 1, end)
  {
    var rest := text[pos + 1..end];
    assert text[pos..end] == "" + "/" + rest;
    hide Split;
    NamesJoin("", rest);
    OneEmpty();
  }

  lemma NameLeft(text: string, pos: nat, k: nat, end: nat)
    requires pos < k && Chunk(text, pos, k, end)
    ensures Left(text, pos, end) == [text[pos..k]] + Left(text, k + 1, end)
  {
    var c := text[pos..k];
    SplitConcat(c, "");
    assert NonEmpty([c]) == [c];
    if k < end {
      var rest := text[k + 1..end];
      assert text[pos..end] == c + "/" + rest;
      hide Split;
      NamesJoin(c, rest);
    }
  }

  lemma {:induction false} TrailingSlashes(text: string, end: nat)
    requires end <= |text| && forall i | end <= i < |text| :: text[i] == '/'
    ensures NonEmpty(Split(text)) == NonEmpty(Split(text[..end]))
    decreases |text|
  {
    if end < |text| {
      var s := text[..|text| - 1];
      TrailingSlashes(s, end);
      assert s[..end] == text[..end] && text == s + "/";
      hide Split;
      OuterSlashes(s);
    } else {
      assert text[..end] == text;
    }
  }

  /** The last name of a clean path and the path before it. */
  lemma LastName(p: string, k: int)
    requires Clean(p) && p != "/" && 0 <= k < |p| && p[k] == '/' && forall i | k < i < |p| :: p[i] != '/'
    ensures var cs := Names(p);
            && cs != [] && p[k + 1..] == cs[|cs| - 1]
            && NonEmpty(Split(p[..k])) == cs[..|cs| - 1]
  {
    var cs := Names(p);
    NamesOfPath(p);
    var a, b := p[..k], p[k + 1..];
    assert p == a + "/" + b;
    assert '/' !in b;
    SplitConcat(b, "");
    SplitJoin(a, b);
    assert Split(p) == Split(a) + [b];
    SplitAbsolute(p);
    assert cs[|cs| - 1] == Split(p)[|Split(p)| - 1] == b;
    assert IsName(cs[|cs| - 1]);
    hide Split;
    NonEmptyJoin(Split(a), [b]);
    assert NonEmpty([b]) == [b];
  }

  // ---------------------------------------------------------------- operations on paths

  /** ramfs_find_parent after the leading slash: the directory to work in and the last name. */
  function ParentOf(nodes: map<Ino, Node>, at: Ino, text: string): (Option<Ino>, string)
    decreases |text|
  {
    if text == "" then (Some(at), "")
    else
      var k := Span(text, 255);
      var rest := AfterSlash(text[k..]);
      if rest == "" then (Some(at), text[..k])
      else
        match LookupIn(nodes, at, text[..k])
        case None => (None, "")
        case Some(n) => if IsDir(nodes, n) then ParentOf(nodes, n, rest) else (None, "")
  }

  predicate IsDir(nodes: map<Ino, Node>, ino: Ino) {
    ino in nodes && nodes[ino].Dir?
  }

  /** The directory reached by looking up all names, without regard to mounts. */
  function Descend(nodes: map<Ino, Node>, at: Ino, cs: seq<string>): Option<Ino> {
    if cs == [] then Some(at)
    else
      match Descend(nodes, at, cs[..|cs| - 1])
      case None => None
      case Some(d) =>
        match LookupIn(nodes, d, cs[|cs| - 1])
        case None => None
        case Some(n) => if IsDir(nodes, n) then Some(n) else None
  }

  /** ramfs_create_file and ramfs_create_dir */
  function CreatedAt(fs: Fs, path: string, ino: Option<Ino>, node: Node): (Option<Ino>, Fs) {
    var (parent, name) := ParentOf(fs.nodes, fs.root, AfterSlash(path));
    if parent.None? || name == "" || !IsDir(fs.nodes, parent.value) || LookupIn(fs.nodes, parent.value, name).Some? || ino.None?
    then (None, fs)
    else (ino, Added(fs, parent.value, name, ino.value, node))
  }

  /** Does the directory have the name, for something that the operation may remove? */
  predicate Removable(s: Fs, dir: Ino, name: string, directory: bool) {
    IsDir(s.nodes, dir) &&
    var es := s.nodes[dir].entries;
    var k := EntryIndex(es, name);
    && k < |es| && es[k].ino in s.nodes
    && if directory then s.nodes[es[k].ino] == Dir([]) else s.nodes[es[k].ino].File?
  }

  /** The last slash of a path, or -1. */
  function LastSlashOf(s: string): (k: int)
    ensures -1 <= k < |s| && (k >= 0 ==> s[k] == '/')
    ensures forall i | k < i < |s| :: s[i] != '/'
  {
    if s == "" then -1 else if s[|s| - 1] == '/' then |s| - 1 else LastSlashOf(s[..|s| - 1])
  }

  /** The scan for the last slash, as vfs_unlink and vfs_rmdir do it. */
  method LastSlash(path: string) returns (k: int)
    ensures k == LastSlashOf(path)
  {
    k := -1;
    var i := 0;
    while i < |path|
      invariant 0 <= i <= |path| && -1 <= k < i && (k >= 0 ==> path[k] == '/')
      invariant forall j | k < j < i :: path[j] != '/'
    {
      if path[i] == '/' { k := i; }
      i := i + 1;
    }
  }

  function RemovedIn(fs: Fs, parent: Option<Ino>, name: string, directory: bool): (int, Fs) {
    if parent.Some? && Removable(fs, parent.value, name, directory) then
      (0, Vfs.Removed(fs, parent.value, EntryIndex(fs.nodes[parent.value].entries, name)))
    else (-1, fs)
  }

  /** vfs_rmdir after the leading slash. */
  function RmdirText(fs: Fs, text: string): (int, Fs) {
    var k := LastSlashOf(text);
    RemovedIn(fs, Lookup(fs, if k < 0 then "" else text[..k]), text[k + 1..], true)
  }

  /** vfs_rmdir */
  function RmdirAt(fs: Fs, path: string): (int, Fs) {
    if AfterSlash(path) == "" then (-1, fs) else RmdirText(fs, AfterSlash(path))
  }

  /** What vfs_unlink keeps of a name. */
  function UnlinkName(name: string): string {
    if |name| <= 63 then name else name[..63]
  }

  /** vfs_unlink */
  function UnlinkAt(fs: Fs, path: string): (int, Fs) {
    var k := LastSlashOf(path);
    if k < 0 then (-1, fs)
    else
      RemovedIn(fs, Lookup(fs, path[..k]), UnlinkName(path[k + 1..]), false)
  }

  // ---------------------------------------------------------------- what they do at clean paths

  /** Nothing is mounted at the path or on the way to it. */
  ghost predicate Unmounted(fs: Fs, cs: seq<string>) {
    forall n | 0 < n <= |cs| :: MountAt(fs, Slashed(cs[..n])) == None
  }

  lemma {:induction false} DescendIsReach(fs: Fs, cs: seq<string>)
    requires Unmounted(fs, cs) && IsDir(fs.nodes, fs.root)
    ensures Descend(fs.nodes, fs.root, cs) ==
            if Reach(fs, cs).Some? && IsDir(fs.nodes, Reach(fs, cs).value) then Reach(fs, cs) else None
  {
    if cs != [] {
      var n := |cs| - 1;
      assert cs[..n + 1] == cs && MountAt(fs, Slashed(cs[..n + 1])) == None;
      forall m | 0 < m <= n ensures MountAt(fs, Slashed(cs[..n][..m])) == None {
        assert cs[..n][..m] == cs[..m];
      }
      DescendIsReach(fs, cs[..n]);
    }
  }

  /** Looking up names from the front gives the same as from the back. */
  lemma {:induction false} DescendFront(nodes: map<Ino, Node>, at: Ino, c: string, cs: seq<string>)
    ensures Descend(nodes, at, [c] + cs) ==
            match LookupIn(nodes, at, c)
            case None => None
            case Some(n) => if IsDir(nodes, n) then Descend(nodes, n, cs) else None
    decreases |cs|
  {
    var all := [c] + cs;
    if cs == [] {
      assert all[..0] == [] && all == [c];
    } else {
      var n := |cs| - 1;
      assert all[..|all| - 1] == [c] + cs[..n] && all[|all| - 1] == cs[n];
      DescendFront(nodes, at, c, cs[..n]);
    }
  }

  lemma {:induction false} ParentOfNames(nodes: map<Ino, Node>, at: Ino, cs: seq<string>)
    requires Plain(cs) && Fitting(cs) && cs != []
    ensures Slashed(cs) != ""
    ensures ParentOf(nodes, at, Slashed(cs)[1..]) ==
            if Descend(nodes, at, cs[..|cs| - 1]).Some? then (Descend(nodes, at, cs[..|cs| - 1]), cs[|cs| - 1])
            else (None, "")
    decreases |cs|
  {
    var c, rest := cs[0], cs[1..];
    assert [c] + rest == cs && IsName(c) && Plain(rest) && Fitting(rest);
    NamesText(c, rest);
    hide ParentOf, Descend, Slashed, IsName, Plain, Fitting;
    ParentStep(nodes, at, c, Slashed(rest));
    if rest == [] {
      EmptyDescend(nodes, at);
      assert cs[..0] == [];
    } else {
      var front := rest[..|rest| - 1];
      assert cs[..|cs| - 1] == [c] + front && cs[|cs| - 1] == rest[|rest| - 1];
      DescendFront(nodes, at, c, front);
      match LookupIn(nodes, at, c)
      case None =>
      case Some(n) => if IsDir(nodes, n) { ParentOfNames(nodes, n, rest); }
    }
  }

  lemma EmptyDescend(nodes: map<Ino, Node>, at: Ino)
    ensures Descend(nodes, at, []) == Some(at)
  {
  }

  /** The text of a list of names, after its first slash. */
  lemma NamesText(c: string, rest: seq<string>)
    requires IsName(c) && Plain(rest)
    ensures Slashed([c] + rest) != "" && Slashed([c] + rest)[1..] == c + Slashed(rest)
    ensures if rest == [] then Slashed(rest) == ""
            else Slashed(rest) != "" && Slashed(rest)[0] == '/' && Slashed(rest)[1..] != ""
  {
    if rest == [] {
      assert Slashed(rest) == "";
    } else {
      SlashedStart(rest);
    }
    hide Slashed;
    SlashedFront(c, rest);
    assert "/" + c + Slashed(rest) == "/" + (c + Slashed(rest));
  }

  lemma SlashedStart(cs: seq<string>)
    requires Plain(cs) && cs != []
    ensures Slashed(cs) != "" && Slashed(cs)[0] == '/' && Slashed(cs)[1..] != ""
  {
    var c, more := cs[0], cs[1..];
    assert IsName(c) && [c] + more == cs;
    hide Slashed, Plain;
    SlashedFront(c, more);
    assert "/" + c + Slashed(more) == "/" + (c + Slashed(more));
  }

  lemma ParentStep(nodes: map<Ino, Node>, at: Ino, c: string, tail: string)
    requires IsName(c) && |c| <= LONGEST && (tail != "" ==> tail[0] == '/')
    ensures ParentOf(nodes, at, c + tail) ==
            if AfterSlash(tail) == "" then (Some(at), c)
            else match LookupIn(nodes, at, c)
                 case None => (None, "")
                 case Some(n) => if IsDir(nodes, n) then ParentOf(nodes, n, AfterSlash(tail)) else (None, "")
  {
    FullSpan(c, tail, 255);
    assert (c + tail)[..|c|] == c && (c + tail)[|c|..] == tail;
    hide Span;
  }

  lemma {:induction false} FullSpan(c: string, rest: string, n: nat)
    requires '/' !in c && |c| <= n && (rest != "" ==> rest[0] == '/')
    ensures Span(c + rest, n) == |c|
  {
    if c != "" {
      assert (c + rest)[1..] == c[1..] + rest && (c + rest)[0] == c[0];
      FullSpan(c[1..], rest, n - 1);
    } else {
      assert c + rest == rest;
    }
  }

  /** What ramfs_find_parent finds for a clean path. */
  lemma ParentAtClean(fs: Fs, p: string)
    requires Clean(p) && p != "/" && IsDir(fs.nodes, fs.root) && Unmounted(fs, Names(p))
    ensures var cs := Names(p);
            var front, last := cs[..|cs| - 1], cs[|cs| - 1];
            ParentOf(fs.nodes, fs.root, AfterSlash(p)) ==
            if Reach(fs, front).Some? && IsDir(fs.nodes, Reach(fs, front).value) then (Reach(fs, front), last)
            else (None, "")
  {
    var cs := Names(p);
    var front := cs[..|cs| - 1];
    RenderOfNames(p);
    NamesFit(p);
    ParentOfNames(fs.nodes, fs.root, cs);
    forall m | 0 < m <= |front| ensures MountAt(fs, Slashed(front[..m])) == None {
      assert front[..m] == cs[..m];
    }
    DescendIsReach(fs, front);
  }

  ghost predicate Ordinary(fs: Fs, p: string) {
    && Tree(fs) && IsDir(fs.nodes, fs.root) && Clean(p) && Unmounted(fs, Names(p))
  }

  /** The directory that the last name of the path belongs in is there. */
  ghost predicate HasParent(fs: Fs, cs: seq<string>) {
    cs != [] && Reach(fs, cs[..|cs| - 1]).Some? && IsDir(fs.nodes, Reach(fs, cs[..|cs| - 1]).value)
  }

  /** What creating may do: succeed exactly if the parent directory is there, the path is not, and there is
      memory; then the path leads to the new inode, and all other paths lead where they did - exactly if
      nothing is mounted right below. */
  ghost predicate CreatesOnly(fs: Fs, p: string, ino: Option<Ino>, node: Node, r: Option<Ino>, fs': Fs)
    requires p != ""
  {
    var cs := Names(p);
    && (r.Some? <==> HasParent(fs, cs) && Reach(fs, cs) == None && ino.Some?)
    && (r.None? ==> fs' == fs)
    && (r.Some? ==> && r == ino && Tree(fs') && Reach(fs', cs) == ino && ino.value in fs'.nodes && fs'.nodes[ino.value] == node
                    && ((forall q | Plain(q) && q != cs :: Reach(fs', q) == Reach(fs, q)) <==> !MountBelow(fs, cs)))
  }

  /** The names of a path other than the root, taken apart. */
  lemma PathParts(fs: Fs, p: string)
    requires Ordinary(fs, p) && p != "/"
    ensures var cs := Names(p);
            && cs != [] && cs == cs[..|cs| - 1] + [cs[|cs| - 1]]
            && IsName(cs[|cs| - 1]) && Plain(cs[..|cs| - 1]) && MountAt(fs, Slashed(cs)) == None
  {
    LastUnmounted(fs, Names(p));
  }

  lemma CreateAtPath(fs: Fs, p: string, ino: Option<Ino>, node: Node)
    requires Ordinary(fs, p) && Childless(node)
    requires ino.Some? ==> ino.value !in fs.nodes && !IsMountRoot(fs, ino.value)
    ensures var (r, fs') := CreatedAt(fs, p, ino, node); CreatesOnly(fs, p, ino, node, r, fs')
  {
    var cs := Names(p);
    if p != "/" {
      PathParts(fs, p);
      ParentAtClean(fs, p);
      var n := |cs| - 1;
      hide Slashed, Tree, Names, Clean, Unmounted, MountAt, ParentOf, Reach;
      if HasParent(fs, cs) { CreateUnder(fs, cs[..n], cs[n], ino, node); }
    } else {
      RootReached(fs);
    }
  }

  lemma CreateUnder(fs: Fs, front: seq<string>, last: string, ino: Option<Ino>, node: Node)
    requires Tree(fs) && Plain(front) && IsName(last) && MountAt(fs, Slashed(front + [last])) == None
    requires Childless(node) && (ino.Some? ==> ino.value !in fs.nodes && !IsMountRoot(fs, ino.value))
    requires HasParent(fs, front + [last])
    ensures var d := Reach(fs, front).value;
            var cs := front + [last];
            && Reach(fs, front).Some? && IsDir(fs.nodes, d) && Reach(fs, cs) == LookupIn(fs.nodes, d, last)
            && (Reach(fs, cs) == None && ino.Some? ==>
                  var fs' := Added(fs, d, last, ino.value, node);
                  && Tree(fs') && Reach(fs', cs) == ino && fs'.nodes[ino.value] == node
                  && ((forall q | Plain(q) && q != cs :: Reach(fs', q) == Reach(fs, q)) <==> !MountBelow(fs, cs)))
  {
    assert (front + [last])[..|front|] == front;
    ReachFurther(fs, front, last);
    hide Reach, Slashed, Tree, MountAt;
    if Reach(fs, front + [last]) == None && ino.Some? {
      CreateChangesOnePath(fs, front, Reach(fs, front).value, last, ino.value, node);
    }
  }

  lemma LastUnmounted(fs: Fs, cs: seq<string>)
    requires Unmounted(fs, cs) && cs != []
    ensures MountAt(fs, Slashed(cs)) == None
  {
    assert cs[..|cs|] == cs;
  }

  /** Removing at a clean path that nothing is mounted on succeeds exactly if the path leads to an empty
      directory (for rmdir) or a file (for unlink); it then leads nowhere, and all other paths lead where
      they did - exactly if nothing is mounted right below. */
  ghost predicate RemovesOnly(fs: Fs, p: string, directory: bool, r: int, fs': Fs)
    requires p != ""
  {
    var cs := Names(p);
    var there := Reach(fs, cs);
    && (r == 0 <==> there.Some? && cs != [] && there.value in fs.nodes &&
                    if directory then fs.nodes[there.value] == Dir([]) else fs.nodes[there.value].File?)
    && (r != 0 ==> r == -1 && fs' == fs)
    && (r == 0 ==> && Tree(fs') && Reach(fs', cs) == None
                   && ((forall q | Plain(q) && q != cs :: Reach(fs', q) == Reach(fs, q)) <==> !MountBelow(fs, cs)))
  }

  lemma RemoveInParent(fs: Fs, p: string, directory: bool)
    requires Ordinary(fs, p) && p != "/"
    ensures var cs := Names(p);
            cs != [] &&
            var (r, fs') := RemovedIn(fs, Reach(fs, cs[..|cs| - 1]), cs[|cs| - 1], directory);
            RemovesOnly(fs, p, directory, r, fs')
  {
    var cs := Names(p);
    PathParts(fs, p);
    var n := |cs| - 1;
    var front, last := cs[..n], cs[n];
    ReachFurther(fs, front, last);
    hide Reach, Slashed, Names, IsName, Clean, Unmounted, MountAt, Tree;
    if Reach(fs, front).Some? && Removable(fs, Reach(fs, front).value, last, directory) {
      RemoveChangesOnePath(fs, front, Reach(fs, front).value, EntryIndex(fs.nodes[Reach(fs, front).value].entries, last));
    }
  }

  lemma RmdirAtPath(fs: Fs, p: string)
    requires Ordinary(fs, p)
    ensures var (r, fs') := RmdirAt(fs, p); p != "" && RemovesOnly(fs, p, true, r, fs')
  {
    if p != "/" {
      RemoveInParent(fs, p, true);
      RmdirParts(p);
      hide RemovesOnly, RemovedIn, Split, NonEmpty, Reach, Ordinary;
    } else {
      RootReached(fs);
    }
  }

  /** vfs_rmdir takes a clean path apart into its parent and its last name. */
  lemma RmdirParts(p: string)
    requires Clean(p) && p != "/"
    ensures var text := AfterSlash(p);
            var k := LastSlashOf(text);
            var cs := Names(p);
            && text != "" && cs != [] && text[k + 1..] == cs[|cs| - 1]
            && NonEmpty(Split(if k < 0 then "" else text[..k])) == cs[..|cs| - 1]
  {
    var text := AfterSlash(p);
    var k := LastSlashOf(text);
    var before := if k < 0 then "" else text[..k];
    hide LastSlashOf, Split, NonEmpty, Names;
    ShiftedSlash(p, text, k);
    LastName(p, k + 1);
    hide Clean;
    OneEmpty();
    OuterSlashes(before);
    BeforeSlash(p, text, k);
  }

  lemma ShiftedSlash(p: string, text: string, k: int)
    requires p != "" && p[0] == '/' && text == p[1..] && -1 <= k < |text| && (k >= 0 ==> text[k] == '/')
    requires forall i | k < i < |text| :: text[i] != '/'
    ensures p[k + 1] == '/' && forall i | k + 1 < i < |p| :: p[i] != '/'
  {
    forall i | k + 1 < i < |p| ensures p[i] != '/' { assert p[i] == text[i - 1]; }
  }

  lemma BeforeSlash(p: string, text: string, k: int)
    requires p != "" && p[0] == '/' && text == p[1..] && -1 <= k < |text|
    ensures p[..k + 1] == (if k < 0 then "" else "/" + text[..k]) && p[k + 2..] == text[k + 1..]
  {
  }

  ghost predicate LeadsToFile(fs: Fs, cs: seq<string>) {
    Reach(fs, cs).Some? && Reach(fs, cs).value in fs.nodes && fs.nodes[Reach(fs, cs).value].File?
  }

  /** The directory of the path holds a file under the first 63 characters of the last name. */
  ghost predicate PrefixIsFile(fs: Fs, cs: seq<string>)
    requires cs != []
  {
    var parent := Reach(fs, cs[..|cs| - 1]);
    parent.Some? && Removable(fs, parent.value, UnlinkName(cs[|cs| - 1]), false)
  }

  /** vfs_unlink will do what it is asked to: the last name has at most 63 characters, or there is neither a
      file under its first 63 characters nor one at the path. */
  ghost predicate UnlinkSafe(fs: Fs, cs: seq<string>) {
    cs == [] || |cs[|cs| - 1]| <= 63 || (!PrefixIsFile(fs, cs) && !LeadsToFile(fs, cs))
  }

  /** At a clean, unmounted path vfs_unlink removes what the path leads to and nothing else exactly if that is
      safe in the sense above. */
  lemma UnlinkAtPath(fs: Fs, p: string)
    requires Ordinary(fs, p)
    ensures p != ""
    ensures var (r, fs') := UnlinkAt(fs, p); RemovesOnly(fs, p, false, r, fs') <==> UnlinkSafe(fs, Names(p))
  {
    hide Tree, Unmounted, LastSlashOf, Split, NonEmpty, Reach, Names;
    assert p != "";
    if p != "/" {
      RemoveInParent(fs, p, false);
      UnlinkParts(p);
      var cs := Names(p);
      if |cs[|cs| - 1]| > 63 { LongUnlink(fs, p); }
      hide RemovesOnly, RemovedIn, Ordinary, Clean, PrefixIsFile;
    } else {
      UnlinkRoot(fs);
      RootIsNameless(fs);
    }
  }

  /** A name of more than 63 characters: the file that loses its entry, if any, is not the one at the path. */
  lemma LongUnlink(fs: Fs, p: string)
    requires Ordinary(fs, p) && p != "/" && Names(p) != [] && |Names(p)[|Names(p)| - 1]| > 63
    ensures var cs := Names(p);
            var (r, fs') := RemovedIn(fs, Reach(fs, cs[..|cs| - 1]), UnlinkName(cs[|cs| - 1]), false);
            && (r == 0 <==> PrefixIsFile(fs, cs)) && Reach(fs', cs) == Reach(fs, cs)
            && (RemovesOnly(fs, p, false, r, fs') <==> !PrefixIsFile(fs, cs) && !LeadsToFile(fs, cs))
  {
    var cs := Names(p);
    PathParts(fs, p);
    var front, last := cs[..|cs| - 1], cs[|cs| - 1];
    if PrefixIsFile(fs, cs) {
      var d := Reach(fs, front).value;
      var k := EntryIndex(fs.nodes[d].entries, UnlinkName(last));
      assert fs.nodes[d].entries[k].name == UnlinkName(last) != last;
      hide Reach, Slashed, Names, IsName, Clean, Unmounted, MountAt, Tree, EntryIndex;
      OtherNameKept(fs, front, d, k, last);
    }
  }

  /** An input for which it goes wrong: unlinking a long name in the root directory removes the file that has its
      first 63 characters for a name, and leaves what the path leads to in place. */
  lemma LongNameUnlinksAnother(fs: Fs, c: string)
    requires Tree(fs) && IsDir(fs.nodes, fs.root) && IsName(c) && 63 < |c| <= LONGEST
    requires Removable(fs, fs.root, c[..63], false)
    ensures var k := EntryIndex(fs.nodes[fs.root].entries, c[..63]);
            UnlinkAt(fs, "/" + c) == (0, Vfs.Removed(fs, fs.root, k))
    ensures LookupIn(UnlinkAt(fs, "/" + c).1.nodes, fs.root, c[..63]) == None
    ensures Reach(UnlinkAt(fs, "/" + c).1, [c]) == Reach(fs, [c])
  {
    var p, k := "/" + c, EntryIndex(fs.nodes[fs.root].entries, c[..63]);
    OneSlash(p, c);
    OneEmpty();
    RootReached(fs);
    hide LastSlashOf, Split, NonEmpty, Tree, Slashed;
    assert p[..0] == "";
    RemovedApart(fs, fs.root, k);
    RemovedLookup(fs, fs.root, k, fs.root, c[..63]);
    OtherNameKept(fs, [], fs.root, k, c);
    assert [] + [c] == [c];
  }

  lemma OneSlash(p: string, c: string)
    requires p == "/" + c && '/' !in c
    ensures LastSlashOf(p) == 0 && p[1..] == c
  {
    assert p[0] == '/' && forall i | 0 < i < |p| :: p[i] == c[i - 1];
    assert forall i | 0 < i < |p| :: p[i] != '/';
  }

  lemma RootIsNameless(fs: Fs)
    ensures Names("/") == [] && Reach(fs, Names("/")) == Some(fs.root)
  {
  }

  lemma UnlinkParts(p: string)
    requires Clean(p) && p != "/"
    ensures var k := LastSlashOf(p);
            var cs := Names(p);
            && k >= 0 && cs != [] && p[k + 1..] == cs[|cs| - 1] && NonEmpty(Split(p[..k])) == cs[..|cs| - 1]
  {
    var k := LastSlashOf(p);
    hide LastSlashOf, Split, NonEmpty, Names;
    assert k >= 0;
    LastName(p, k);
  }

  /** The root cannot be unlinked: the name is empty. */
  lemma UnlinkRoot(fs: Fs)
    requires Tree(fs) && IsDir(fs.nodes, fs.root)
    ensures var (r, fs') := UnlinkAt(fs, "/"); r == -1 && fs' == fs
  {
    assert LastSlashOf("/") == 0;
    assert "/"[..0] == "" && "/"[1..] == "";
    OneEmpty();
    assert NamesApart(fs.nodes[fs.root].entries);
    assert EntryIndex(fs.nodes[fs.root].entries, "") == |fs.nodes[fs.root].entries|;
  }

  // ---------------------------------------------------------------- every run

  datatype Op =
    | Create(path: string, ino: Option<Ino>, node: Node)
    | Rmdir(path: string)
    | Unlink(path: string)
    | MountOn(path: string, mounted: Option<Ino>)
    | UnmountFrom(path: string)

  function After(fs: Fs, op: Op): Fs {
    match op
    case Create(path, ino, node) => CreatedAt(fs, path, ino, node).1
    case Rmdir(path) => RmdirAt(fs, path).1
    case Unlink(path) => UnlinkAt(fs, path).1
    case MountOn(path, mounted) => MountedAt(fs, path, mounted).1
    case UnmountFrom(path) => UnmountedAt(fs, path).1
  }

  /** Inodes come fresh from the allocator, and new nodes are files or empty directories. */
  ghost predicate FreshInodes(fs: Fs, op: Op) {
    match op
    case Create(_, ino, node) => Childless(node) && (ino.Some? ==> ino.value !in fs.nodes && !IsMountRoot(fs, ino.value))
    case MountOn(_, mounted) => mounted.Some? ==> Unused(fs, mounted.value)
    case _ => true
  }

  ghost predicate AllFresh(fs: Fs, ops: seq<Op>)
    decreases ops
  {
    ops == [] || (FreshInodes(fs, ops[0]) && AllFresh(After(fs, ops[0]), ops[1..]))
  }

  function Run(fs: Fs, ops: seq<Op>): Fs
    decreases ops
  {
    if ops == [] then fs else Run(After(fs, ops[0]), ops[1..])
  }

  /** mount_init, vfs_init and ramfs_mount_root: an empty root directory and nothing mounted. */
  function Boot(root: Ino): Fs {
    Fs(root, map[root := Dir([])], [None, None, None, None, None, None, None, None])
  }

  /** The name that ramfs_find_parent finds has no slash. */
  lemma {:induction false} ParentName(nodes: map<Ino, Node>, at: Ino, text: string)
    ensures '/' !in ParentOf(nodes, at, text).1
    decreases |text|
  {
    if text != "" {
      var k := Span(text, 255);
      var rest := AfterSlash(text[k..]);
      if rest != "" {
        match LookupIn(nodes, at, text[..k])
        case None =>
        case Some(n) => if IsDir(nodes, n) { ParentName(nodes, n, rest); }
      }
    }
  }

  lemma CreateKeepsTree(fs: Fs, path: string, ino: Option<Ino>, node: Node)
    requires Tree(fs) && FreshInodes(fs, Create(path, ino, node))
    ensures Tree(CreatedAt(fs, path, ino, node).1) && CreatedAt(fs, path, ino, node).1.mounts == fs.mounts
  {
    var (parent, name) := ParentOf(fs.nodes, fs.root, AfterSlash(path));
    ParentName(fs.nodes, fs.root, AfterSlash(path));
    hide Tree, ParentOf, LookupIn;
    if CreatedAt(fs, path, ino, node).0.Some? { AddedTree(fs, parent.value, name, ino.value, node); }
  }

  lemma RemoveKeepsTree(fs: Fs, parent: Option<Ino>, name: string, directory: bool)
    requires Tree(fs)
    ensures var fs' := RemovedIn(fs, parent, name, directory).1; Tree(fs') && fs'.mounts == fs.mounts
  {
    hide Tree;
    if parent.Some? && Removable(fs, parent.value, name, directory) {
      RemovedTree(fs, parent.value, EntryIndex(fs.nodes[parent.value].entries, name));
    }
  }

  lemma StepKeepsTree(fs: Fs, op: Op)
    requires Tree(fs) && FreshInodes(fs, op)
    ensures Tree(After(fs, op))
    ensures PathsApart(fs.mounts) && (op.MountOn? ==> |op.path| <= 255) ==> PathsApart(After(fs, op).mounts)
  {
    hide Tree, PathsApart, CreatedAt, RemovedIn, Lookup, MountedAt, UnmountedAt, Unused, LastSlashOf, UnlinkName;
    match op
    case Create(path, ino, node) => CreateKeepsTree(fs, path, ino, node);
    case Rmdir(path) =>
      var text := AfterSlash(path);
      var k := LastSlashOf(text);
      if text != "" { RemoveKeepsTree(fs, Lookup(fs, if k < 0 then "" else text[..k]), text[k + 1..], true); }
    case Unlink(path) =>
      var k := LastSlashOf(path);
      if k >= 0 { RemoveKeepsTree(fs, Lookup(fs, path[..k]), UnlinkName(path[k + 1..]), false); }
    case MountOn(path, mounted) =>
      MountKeeps(fs, path, mounted);
      MountKeepsApart(fs, path, mounted);
    case UnmountFrom(path) =>
      UnmountKeeps(fs, path);
      UnmountKeepsApart(fs, path);
  }

  /** After any run of creating, removing, mounting and unmounting, at whatever paths, nothing has two names and
      no path is mounted twice: what the results about single paths assume holds in every state. */
  lemma {:induction false} RunKeepsTree(fs: Fs, ops: seq<Op>)
    requires Tree(fs) && AllFresh(fs, ops)
    ensures Tree(Run(fs, ops))
    ensures PathsApart(fs.mounts) && (forall i | 0 <= i < |ops| && ops[i].MountOn? :: |ops[i].path| <= 255) ==>
              PathsApart(Run(fs, ops).mounts)
    decreases ops
  {
    hide Tree, PathsApart, FreshInodes, After;
    if ops != [] {
      StepKeepsTree(fs, ops[0]);
      RunKeepsTree(After(fs, ops[0]), ops[1..]);
    }
  }

  /** Something is mounted at "/a/b", and there is no "/a". */
  function MountedAlone(): Fs {
    Fs(0, map[0 := Dir([])], [Some(Mount("/a/b", 7)), None, None, None, None, None, None, None])
  }

  /** That state is reached, and has a mount right below a path. */
  lemma MountAloneReached()
    ensures AllFresh(Boot(0), [MountOn("/a/b", Some(7))]) && Run(Boot(0), [MountOn("/a/b", Some(7))]) == MountedAlone()
  {
    var op := MountOn("/a/b", Some(7));
    assert [op][1..] == [];
    assert After(Boot(0), op) == MountedAlone();
  }

  lemma MountAloneBelow()
    ensures MountBelow(MountedAlone(), ["a"]) && Reach(MountedAlone(), ["a", "b"]) == None
  {
    var fs := MountedAlone();
    AbSlashed();
    assert ["a"] + ["b"] == ["a", "b"] && [] + ["a"] == ["a"];
    hide Slashed;
    assert IsName("b") && MountAt(fs, Slashed(["a"] + ["b"])).Some?;
    ReachFurther(fs, [], "a");
    RootReached(fs);
    hide Reach;
    NowhereStays(fs, ["a"], ["b"]);
  }

  /** Creating "/a" there makes the mount appear. */
  lemma MountAppears()
    ensures var op := Create("/a", Some(1), Dir([]));
            FreshInodes(MountedAlone(), op) && Reach(After(MountedAlone(), op), ["a", "b"]) == Some(7)
  {
    var fs, op := MountedAlone(), Create("/a", Some(1), Dir([]));
    var fs' := Added(fs, 0, "a", 1, Dir([]));
    assert After(fs, op) == fs' by {
      ParentStep(fs.nodes, 0, "a", "");
      hide ParentOf;
      assert "a" + "" == "a" && "/a"[1..] == "a";
    }
    assert fs'.mounts == fs.mounts && fs'.root == 0 && LookupIn(fs'.nodes, 0, "a") == Some(1);
    hide After, ParentOf, Reach, Slashed, LookupIn, Added, MountedAlone;
    AppearedBelow(fs, fs');
  }

  lemma AppearedBelow(fs: Fs, fs': Fs)
    requires fs == MountedAlone() && fs'.mounts == fs.mounts && fs'.root == 0 && LookupIn(fs'.nodes, 0, "a") == Some(1)
    ensures Reach(fs', ["a", "b"]) == Some(7)
  {
    AbSlashed();
    RootReached(fs');
    hide Reach, Slashed;
    assert ["a"] + ["b"] == ["a", "b"] && [] + ["a"] == ["a"];
    ReachFurther(fs', [], "a");
    ReachFurther(fs', ["a"], "b");
  }

  lemma AbSlashed()
    ensures Slashed(["a"]) == "/a" && Slashed(["a", "b"]) == "/a/b"
  {
    SlashedFront("b", []);
    SlashedFront("a", ["b"]);
    SlashedFront("a", []);
    NoSlashed();
    assert ["b"] + [] == ["b"] && ["a"] + [] == ["a"] && ["a"] + ["b"] == ["a", "b"];
  }

  lemma BootTree(root: Ino)
    ensures Tree(Boot(root)) && PathsApart(Boot(root).mounts)
  {
  }

  class FileTree {
    const root: Ino
    var nodes: map<Ino, Node>
    const mountTable: array<Option<Mount>>

    ghost function Abs(): Fs
      reads this, mountTable
    {
      Fs(root, nodes, mountTable[..])
    }

    constructor (root: Ino)
      ensures fresh(mountTable) && Tree(Abs()) && PathsApart(Abs().mounts)
      ensures Abs() == Boot(root)
    {
      this.root := root;
      nodes := map[root := Dir([])];
      mountTable := new Option<Mount>[MOUNTS](_ => None);
    }

    // -------------------------------------------------------------- mount table

    method FindMount(path: string) returns (i: int)
      ensures i == match MountFrom(mountTable[..], path, 0) case None => -1 case Some(k) => k
    {
      i := 0;
      while i < mountTable.Length
        invariant 0 <= i <= mountTable.Length
        invariant MountFrom(mountTable[..], path, 0) == MountFrom(mountTable[..], path, i)
      {
        if mountTable[i].Some? && mountTable[i].value.path == path { return; }
        i := i + 1;
      }
      return -1;
    }

    /** mount_get_sb, giving the root of the mounted file system. */
    method MountGetSb(path: string) returns (r: Option<Ino>)
      ensures r == MountAt(Abs(), path)
    {
      var i := FindMount(path);
      if i >= 0 { return Some(mountTable[i].value.root); }
      return None;
    }

    /** mount_fs; `mounted` is what opening the device and reading its superblock came to. */
    method MountFs(path: string, mounted: Option<Ino>) returns (r: int)
      modifies mountTable
      ensures (r, Abs()) == MountedAt(old(Abs()), path, mounted)
      ensures |path| <= 255 ==>
                forall q :: MountAt(Abs(), q) == if r == 0 && q == path then mounted else MountAt(old(Abs()), q)
      ensures old(Tree(Abs())) && (mounted.Some? ==> Unused(old(Abs()), mounted.value)) ==> Tree(Abs())
      ensures old(PathsApart(Abs().mounts)) && |path| <= 255 ==> PathsApart(Abs().mounts)
    {
      ghost var fs := Abs();
      MountFacts(fs, path, mounted);
      hide MountedAt, Tree, PathsApart, MountAt, Unused;
      r := DoMount(path, mounted);
    }

    method DoMount(path: string, mounted: Option<Ino>) returns (r: int)
      modifies mountTable
      ensures (r, Abs()) == MountedAt(old(Abs()), path, mounted)
    {
      var taken := FindMount(path);
      if taken >= 0 { return -2; }
      var slot := -1;
      var i := 0;
      while i < mountTable.Length && slot < 0
        invariant 0 <= i <= mountTable.Length
        invariant FreeSlot(mountTable[..], 0) == if slot < 0 then FreeSlot(mountTable[..], i) else Some(slot as nat)
        invariant -1 <= slot < mountTable.Length
      {
        if mountTable[i].None? { slot := i; }
        i := i + 1;
      }
      if slot < 0 { return -1; }
      if mounted.None? { return -1; }
      ghost var before := mountTable[..];
      mountTable[slot] := Some(Mount(if |path| <= 255 then path else path[..255], mounted.value));
      assert mountTable[..] == before[slot := mountTable[slot]];
      return 0;
    }

    static lemma MountFacts(fs: Fs, path: string, mounted: Option<Ino>)
      ensures var (r, fs') := MountedAt(fs, path, mounted);
              |path| <= 255 ==>
                forall q :: MountAt(fs', q) == if r == 0 && q == path then mounted else MountAt(fs, q)
      ensures Tree(fs) && (mounted.Some? ==> Unused(fs, mounted.value)) ==> Tree(MountedAt(fs, path, mounted).1)
      ensures PathsApart(fs.mounts) && |path| <= 255 ==> PathsApart(MountedAt(fs, path, mounted).1.mounts)
    {
      hide MountedAt, Tree, PathsApart, MountAt, Unused;
      if |path| <= 255 {
        forall q { MountChangesOnePoint(fs, path, mounted, q); }
      }
      MountKeepsApart(fs, path, mounted);
      if Tree(fs) && (mounted.Some? ==> Unused(fs, mounted.value)) { MountKeeps(fs, path, mounted); }
    }

    /** unmount_fs */
    method UnmountFs(path: string) returns (r: int)
      modifies mountTable
      ensures (r, Abs()) == UnmountedAt(old(Abs()), path)
      ensures old(PathsApart(Abs().mounts)) ==>
                && PathsApart(Abs().mounts)
                && forall q :: MountAt(Abs(), q) == if q == path then None else MountAt(old(Abs()), q)
      ensures old(Tree(Abs())) ==> Tree(Abs())
    {
      ghost var fs := Abs();
      UnmountFacts(fs, path);
      hide Tree, PathsApart, MountAt;
      var i := FindMount(path);
      if i < 0 { return -1; }
      ghost var before := mountTable[..];
      mountTable[i] := None;
      assert mountTable[..] == before[i := None];
      return 0;
    }

    static lemma UnmountFacts(fs: Fs, path: string)
      ensures var fs' := UnmountedAt(fs, path).1;
              && (PathsApart(fs.mounts) ==>
                    && PathsApart(fs'.mounts)
                    && forall q :: MountAt(fs', q) == if q == path then None else MountAt(fs, q))
              && (Tree(fs) ==> Tree(fs'))
    {
      hide UnmountedAt, Tree, PathsApart, MountAt;
      if PathsApart(fs.mounts) {
        forall q { UnmountChangesOnePoint(fs, path, q); }
      }
      UnmountKeepsApart(fs, path);
      if Tree(fs) { UnmountKeeps(fs, path); }
    }

    // -------------------------------------------------------------- directory lists

    /** The loop that all list operations share. */
    method FindEntry(entries: seq<Entry>, name: string) returns (k: nat)
      ensures k == EntryIndex(entries, name)
    {
      k := 0;
      while k < |entries| && entries[k].name != name
        invariant k <= |entries| && forall i | 0 <= i < k :: entries[i].name != name
      {
        k := k + 1;
      }
    }

    method RamfsLookup(dir: Ino, name: string) returns (r: Option<Ino>)
      ensures r == LookupIn(nodes, dir, name)
    {
      if dir !in nodes || nodes[dir].File? { return None; }
      var k := FindEntry(nodes[dir].entries, name);
      if k < |nodes[dir].entries| { return Some(nodes[dir].entries[k].ino); }
      return None;
    }

    /** ramfs_create and ramfs_mkdir: the node to put there tells which; `ino` is the new inode, if there was
        memory for it. */
    method RamfsAdd(dir: Ino, name: string, ino: Option<Ino>, node: Node) returns (r: Option<Ino>)
      modifies this`nodes
      ensures var s := old(Abs());
              if dir in s.nodes && s.nodes[dir].Dir? && LookupIn(s.nodes, dir, name) == None && ino.Some? then
                r == ino && Abs() == Added(s, dir, name, ino.value, node)
              else r == None && Abs() == s
    {
      if dir !in nodes || nodes[dir].File? { return None; }
      var k := FindEntry(nodes[dir].entries, name);
      if k < |nodes[dir].entries| { return None; }
      if ino.None? { return None; }
      nodes := nodes[dir := Dir([Entry(name, ino.value)] + nodes[dir].entries)][ino.value := node];
      return ino;
    }

    /** ramfs_unlink and ramfs_rmdir: the first removes files only, the second empty directories only. */
    method RamfsRemove(dir: Ino, name: string, directory: bool) returns (r: int)
      modifies this`nodes
      ensures (r, Abs()) == RemovedIn(old(Abs()), Some(dir), name, directory)
    {
      if dir !in nodes || nodes[dir].File? { return -1; }
      var entries := nodes[dir].entries;
      var k := FindEntry(entries, name);
      if k == |entries| { return -1; }
      var target := entries[k].ino;
      if target !in nodes { return -1; }
      if directory {
        if nodes[target].File? { return -1; }
        if |nodes[target].entries| > 0 { return -1; }
      } else if nodes[target].Dir? {
        return -1;
      }
      nodes := nodes[dir := Dir(entries[..k] + entries[k + 1..])] - {target};
      return 0;
    }

    // -------------------------------------------------------------- lookup

    /** The part of the path up to the next slash. */
    method TakeName(text: string, pos: nat, end: nat) returns (k: nat)
      requires pos <= end <= |text| <= LONGEST
      ensures pos <= k <= end && Chunk(text, pos, k, end)
    {
      k := pos;
      while k < end && text[k] != '/' && k - pos < 255
        invariant pos <= k <= end && '/' !in text[pos..k]
      {
        k := k + 1;
      }
    }

    /** One step of the lookup: a mount point leads to the root mounted there, another name is looked up. */
    method Follow(cur: Ino, here: string, name: string) returns (next: Option<Ino>)
      ensures Abs() == old(Abs())
      ensures next == if MountAt(Abs(), here).Some? then MountAt(Abs(), here) else LookupIn(Abs().nodes, cur, name)
    {
      var mounted := MountGetSb(here);
      if mounted.Some? { return mounted; }
      next := RamfsLookup(cur, name);
    }

    /** vfs_lookup_inode */
    method VfsLookupInode(path: string) returns (r: Option<Ino>)
      requires |AfterSlash(path)| <= LONGEST
      ensures Abs() == old(Abs()) && r == Lookup(Abs(), path)
    {
      hide Split, NonEmpty, Reach, Left;
      var text := if path != "" && path[0] == '/' then path[1..] else path;
      var end := |text|;
      while end > 0 && text[end - 1] == '/'
        invariant 0 <= end <= |text| && forall i | end <= i < |text| :: text[i] == '/'
      {
        end := end - 1;
      }
      ghost var fs := Abs();
      WholePath(path, text, end);
      RootReached(fs);
      if end == 0 { return Some(root); }
      assert [] + Left(text, 0, end) == Left(text, 0, end);
      r := Walk(text, end);
    }

    /** One round of the main loop, for the name from pos to k. */
    method NextStep(text: string, pos: nat, k: nat, end: nat, cur: Ino, curPath: string, ghost done: seq<string>)
      returns (next: Option<Ino>, after: nat, path: string)
      requires pos < k <= end <= |text| && Chunk(text, pos, k, end)
      requires curPath == Slashed(done) + "/" && Reach(Abs(), done) == Some(cur)
      ensures Abs() == old(Abs()) && next == Reach(Abs(), done + [text[pos..k]])
      ensures k <= after <= end + 1 && Left(text, after, end) == Left(text, k + 1, end)
      ensures done + Left(text, pos, end) == (done + [text[pos..k]]) + Left(text, k + 1, end)
      ensures after < end ==> path == Slashed(done + [text[pos..k]]) + "/"
    {
      hide Split, NonEmpty, Slashed, Reach, Left, Abs, MountAt, LookupIn;
      var name := text[pos..k];
      Advanced(done, text, pos, k, end);
      ReachFurther(Abs(), done, name);
      path := curPath + name;
      assert path == Slashed(done + [name]);
      var here := path;
      after := k;
      if after < |text| && text[after] == '/' {
        after := after + 1;
        path := path + "/";
      }
      next := Follow(cur, here, name);
    }

    /** The main loop of vfs_lookup_inode, over the text before the slashes at its end. */
    method Walk(text: string, end: nat) returns (r: Option<Ino>)
      requires 0 < end <= |text| <= LONGEST
      ensures Abs() == old(Abs()) && r == Reach(Abs(), Left(text, 0, end))
    {
      ghost var fs := Abs();
      RootReached(fs);
      EmptySlashed();
      var cur := root;
      assert Reach(fs, []) == Some(cur);
      hide Split, NonEmpty, Slashed, Reach, Left, Abs, MountAt, LookupIn, Chunk;
      var curPath := "/";
      var pos := 0;
      ghost var done: seq<string> := [];
      assert [] + Left(text, 0, end) == Left(text, 0, end);
      while pos < end
        invariant Abs() == fs && pos <= end + 1 && Left(text, 0, end) == done + Left(text, pos, end)
        invariant Reach(fs, done) == Some(cur) && (pos < end ==> curPath == Slashed(done) + "/")
        decreases end + 1 - pos
      {
        var k := TakeName(text, pos, end);
        if k == pos {
          EmptyChunk(text, pos, end);
          SlashLeft(text, pos, end);
          pos := pos + 1;
          continue;
        }
        var next;
        ghost var name, rest := text[pos..k], Left(text, k + 1, end);
        next, pos, curPath := NextStep(text, pos, k, end, cur, curPath, done);
        done := done + [name];
        if next.None? {
          NowhereStays(fs, done, rest);
          return None;
        }
        cur := next.value;
      }
      EndLeft(text, end, end);
      assert done + [] == done;
      return Some(cur);
    }

    lemma Advanced(done: seq<string>, text: string, pos: nat, k: nat, end: nat)
      requires pos < k <= end <= |text| && Chunk(text, pos, k, end)
      ensures done + Left(text, pos, end) == (done + [text[pos..k]]) + Left(text, k + 1, end)
      ensures Slashed(done + [text[pos..k]]) == Slashed(done) + "/" + text[pos..k]
      ensures k == end ==> Left(text, k, end) == [] == Left(text, k + 1, end)
    {
      hide Left, Slashed, Chunk;
      NameLeft(text, pos, k, end);
      EndLeft(text, k, end);
      SlashedFurther(done, text[pos..k]);
      Regroup(done, text[pos..k], Left(text, k + 1, end));
    }

    lemma EmptySlashed()
      ensures Slashed([]) == ""
    {
    }

    /** At the end of the text nothing is left, with or without a slash there. */
    lemma EndLeft(text: string, k: nat, end: nat)
      requires k <= end <= |text|
      ensures k == end ==> Left(text, k, end) == [] == Left(text, k + 1, end)
    {
      if k == end {
        assert text[k..end] == "";
        OneEmpty();
      }
    }

    lemma WholePath(path: string, text: string, end: nat)
      requires text == AfterSlash(path) && end <= |text| && forall i | end <= i < |text| :: text[i] == '/'
      ensures NonEmpty(Split(path)) == [] + Left(text, 0, end)
      ensures end == 0 ==> NonEmpty(Split(path)) == []
    {
      TrailingSlashes(text, end);
      assert text[0..end] == text[..end];
      OneEmpty();
      hide Split;
      if path != "" && path[0] == '/' {
        assert "/" + text == path;
        OuterSlashes(text);
      }
    }

    // -------------------------------------------------------------- operations on paths

    /** One component of ramfs_find_parent: the text before the next slash and what follows it. */
    method TakeComponent(text: string) returns (name: string, rest: string)
      ensures name == text[..Span(text, 255)] && rest == AfterSlash(text[Span(text, 255)..])
    {
      var k := 0;
      while k < |text| && text[k] != '/' && k < 255
        invariant k <= |text| && k <= 255 && Span(text, 255) == k + Span(text[k..], 255 - k)
      {
        k := k + 1;
      }
      name := text[..k];
      rest := text[k..];
      if rest != "" && rest[0] == '/' { rest := rest[1..]; }
    }

    /** ramfs_find_parent */
    method RamfsFindParent(path: string) returns (parent: Option<Ino>, name: string)
      ensures Abs() == old(Abs()) && (parent, name) == ParentOf(nodes, root, AfterSlash(path))
    {
      var text := if path != "" && path[0] == '/' then path[1..] else path;
      var cur := root;
      if text == "" { return Some(cur), ""; }
      ghost var goal := ParentOf(nodes, root, text);
      ghost var ns := nodes;
      while true
        invariant Abs() == old(Abs()) && nodes == ns && text != "" && ParentOf(ns, cur, text) == goal
        decreases |text|
      {
        var rest;
        name, rest := TakeComponent(text);
        if rest == "" { return Some(cur), name; }
        var next := RamfsLookup(cur, name);
        if next.None? || next.value !in nodes || nodes[next.value].File? { return None, ""; }
        cur, text := next.value, rest;
      }
    }

    /** ramfs_create_file and ramfs_create_dir, by the node to put there. */
    method CreateAt(path: string, ino: Option<Ino>, node: Node) returns (r: Option<Ino>)
      modifies this`nodes
      ensures (r, Abs()) == CreatedAt(old(Abs()), path, ino, node)
    {
      var parent, name := RamfsFindParent(path);
      if parent.None? || name == "" { return None; }
      r := RamfsAdd(parent.value, name, ino, node);
    }

    /** The directory part of the path: the root if there is no slash. */
    method RmdirParent(text: string, k: int) returns (parent: Option<Ino>)
      requires -1 <= k < |text| <= LONGEST
      ensures Abs() == old(Abs()) && parent == Lookup(Abs(), if k < 0 then "" else text[..k])
    {
      EmptyIsRoot(Abs());
      assert Abs().root == root;
      hide Lookup, Abs;
      if k < 0 { return Some(root); }
      parent := VfsLookupInode(text[..k]);
    }

    method RmdirByName(text: string) returns (r: int)
      requires text != "" && |text| <= LONGEST
      modifies this`nodes
      ensures (r, Abs()) == RmdirText(old(Abs()), text)
    {
      hide Lookup, Removable, RemovedIn, LastSlashOf, Abs, AfterSlash;
      var k := LastSlash(text);
      var name := text[k + 1..];
      ghost var fs := Abs();
      NoParent(fs, name, true);
      var parent := RmdirParent(text, k);
      assert Abs() == fs && RmdirText(fs, text) == RemovedIn(fs, parent, name, true);
      hide RmdirText;
      if parent.None? { return -1; }
      r := RamfsRemove(parent.value, name, true);
    }

    /** vfs_rmdir */
    method VfsRmdir(path: string) returns (r: int)
      requires |AfterSlash(path)| <= LONGEST
      modifies this`nodes
      ensures (r, Abs()) == RmdirAt(old(Abs()), path)
    {
      hide Abs, RmdirText;
      var text := if path != "" && path[0] == '/' then path[1..] else path;
      if text == "" { return -1; }
      r := RmdirByName(text);
    }

    lemma NoParent(fs: Fs, name: string, directory: bool)
      ensures RemovedIn(fs, None, name, directory) == (-1, fs)
    {
    }

    lemma EmptyIsRoot(fs: Fs)
      ensures Lookup(fs, "") == Some(fs.root)
    {
      OneEmpty();
    }

    /** vfs_unlink */
    method VfsUnlink(path: string) returns (r: int)
      requires |AfterSlash(path)| <= LONGEST
      modifies this`nodes
      ensures (r, Abs()) == UnlinkAt(old(Abs()), path)
    {
      var k := LastSlash(path);
      if k < 0 { return -1; }
      var name := path[k + 1..];
      if |name| > 63 { name := name[..63]; }
      assert name == UnlinkName(path[k + 1..]);
      NoParent(Abs(), name, false);
      hide Lookup, Removable, RemovedIn, LastSlashOf, Abs;
      var parent := VfsLookupInode(path[..k]);
      if parent.None? { return -1; }
      r := RamfsRemove(parent.value, name, false);
    }
  }

  // ---------------------------------------------------------------- cd

  /** What a path leads to; what is mounted is a directory. */
  function KindOf(fs: Fs, path: string): Found {
    match Lookup(fs, path)
    case None => Nothing
    case Some(ino) => if IsDir(fs.nodes, ino) || IsMountRoot(fs, ino) then Directory else Paths.File
  }

  class Shell {
    var currentDir: string

    constructor ()
      ensures currentDir == "/"
    {
      currentDir := "/";
    }

    /** cmd_cd; the argument may be missing. */
    method CmdCd(tree: FileTree, args: Option<string>)
      requires currentDir != "" && |currentDir| <= BUFFER
      modifies this
      ensures currentDir == if args.None? || args.value == "" then "/"
                            else Cd(old(currentDir), args, KindOf(tree.Abs(), Normalize(old(currentDir), args.value)))
      ensures args.Some? && args.value != "" ==>
                var p, fs := Normalize(old(currentDir), args.value), tree.Abs();
                currentDir == match Lookup(fs, p)
                              case None => old(currentDir)
                              case Some(i) => if (i in fs.nodes && fs.nodes[i].Dir?) || IsMountRoot(fs, i) then p
                                              else old(currentDir)
      ensures currentDir != "" && |currentDir| <= BUFFER
    {
      hide Normalize, Lookup;
      if args.None? || args.value == "" {
        currentDir := "/";
        return;
      }
      var normalized := NormalizePath(currentDir, args.value);
      NormalizeIsRender(currentDir, args.value);
      NormalizedStart(currentDir, args.value);
      var inode := tree.VfsLookupInode(normalized);
      if inode.None? { return; }
      var isDir := IsDir(tree.nodes, inode.value) || IsMountRoot(Fs(tree.root, tree.nodes, tree.mountTable[..]), inode.value);
      if !isDir { return; }
      currentDir := normalized;
    }
  }

  lemma NormalizedStart(cwd: string, path: string)
    requires cwd != ""
    ensures Normalize(cwd, path) != "" && Normalize(cwd, path)[0] == '/'
  {
    NormalizeIsRender(cwd, path);
    NamesOfRender(Shown(0, NamesFound(cwd, path)));
  }
}

/** What a mount does to the paths of the file tree (src/fs/mount.c, src/fs/vfs.c): it covers what is at its path
    and below, touches nothing else, and goes without a trace when it is unmounted. */
module VfsMounts {
  import opened Common
  import opened Paths
  import opened Vfs

  /** What mount_fs answers: -2 for a path that is mounted, -1 without a free slot or a file system on the device.
      Only a success changes anything. */
  lemma MountAnswers(fs: Fs, path: string, mounted: Option<Ino>)
    ensures var (r, fs') := MountedAt(fs, path, mounted);
            && r == (if exists k :: 0 <= k < |fs.mounts| && fs.mounts[k].Some? && fs.mounts[k].value.path == path then -2
                     else if mounted.None? || forall k | 0 <= k < |fs.mounts| :: fs.mounts[k].Some? then -1
                     else 0)
            && (r != 0 ==> fs' == fs) && fs'.nodes == fs.nodes && fs'.root == fs.root
  {
  }

  /** A mount that succeeds is found again under its path exactly if the path has at most 255 characters; a longer
      one is mounted at its first 255. */
  lemma MountFoundAgain(fs: Fs, path: string, m: Ino)
    requires MountedAt(fs, path, Some(m)).0 == 0
    ensures var fs' := MountedAt(fs, path, Some(m)).1;
            && (MountAt(fs', path) == Some(m) <==> |path| <= 255)
            && (|path| > 255 ==> MountAt(fs', path) == None && MountAt(fs', path[..255]).Some?)
  {
    var fs' := MountedAt(fs, path, Some(m)).1;
    var slot := FreeSlot(fs.mounts, 0).value;
    if |path| <= 255 {
      MountChangesOnePoint(fs, path, Some(m), path);
    } else {
      assert fs'.mounts[slot] == Some(Mount(path[..255], m));
      SameSearch(fs.mounts, fs'.mounts, path, slot, 0);
    }
  }

  /** What unmount_fs answers. */
  lemma UnmountAnswers(fs: Fs, path: string)
    ensures var (r, fs') := UnmountedAt(fs, path);
            && r == (if exists k :: 0 <= k < |fs.mounts| && fs.mounts[k].Some? && fs.mounts[k].value.path == path then 0
                     else -1)
            && (r != 0 ==> fs' == fs) && fs'.nodes == fs.nodes && fs'.root == fs.root
  {
  }

  /** The path with names q is not cs and does not lead through cs. */
  ghost predicate Misses(q: seq<string>, cs: seq<string>) {
    !(cs <= q)
  }

  /** Two trees with the same files, and the same mounts at all paths but one. */
  ghost predicate SameBut(fs: Fs, fs': Fs, cs: seq<string>) {
    && fs'.root == fs.root && fs'.nodes == fs.nodes
    && forall p | p != Slashed(cs) :: MountAt(fs', p) == MountAt(fs, p)
  }

  /** Paths that do not lead through cs lead where they did. */
  lemma {:induction false} MissedPaths(fs: Fs, fs': Fs, cs: seq<string>, q: seq<string>)
    requires SameBut(fs, fs', cs) && Plain(cs) && Plain(q) && Misses(q, cs)
    ensures Reach(fs', q) == Reach(fs, q)
    decreases |q|
  {
    if q != [] {
      var n := |q| - 1;
      assert q[..n] <= q;
      MissedPaths(fs, fs', cs, q[..n]);
      if Slashed(q) == Slashed(cs) { SlashedInjective(q, cs); }
      hide Slashed, MountAt, LookupIn;
    }
  }

  /** The front of a path misses it. */
  lemma FrontMisses(cs: seq<string>)
    requires cs != []
    ensures Misses(cs[..|cs| - 1], cs)
  {
  }

  /** A mount covers its path, whatever was there, if the path before it leads anywhere; the names below are
      looked up in what is mounted, unless they are mount points themselves; all other paths lead where they did. */
  lemma MountCovers(fs: Fs, cs: seq<string>, m: Ino, x: string, q: seq<string>)
    requires Plain(cs) && cs != [] && |Slashed(cs)| <= 255 && Plain(q) && Misses(q, cs)
    requires MountedAt(fs, Slashed(cs), Some(m)).0 == 0
    ensures var fs' := MountedAt(fs, Slashed(cs), Some(m)).1;
            var there := Reach(fs, cs[..|cs| - 1]).Some?;
            && Reach(fs', cs) == (if there then Some(m) else None)
            && Reach(fs', q) == Reach(fs, q)
            && (there && x != "" ==>
                  Reach(fs', cs + [x]) == (if MountAt(fs, Slashed(cs + [x])).Some? then MountAt(fs, Slashed(cs + [x]))
                                           else LookupIn(fs.nodes, m, x)))
  {
    var fs' := MountedAt(fs, Slashed(cs), Some(m)).1;
    forall p ensures p != Slashed(cs) ==> MountAt(fs', p) == MountAt(fs, p) {
      MountChangesOnePoint(fs, Slashed(cs), Some(m), p);
    }
    MountChangesOnePoint(fs, Slashed(cs), Some(m), Slashed(cs));
    var front, last := cs[..|cs| - 1], cs[|cs| - 1];
    assert front + [last] == cs;
    LongerPath(cs, x);
    hide MountedAt, MountAt, Slashed, LookupIn;
    MissedPaths(fs, fs', cs, q);
    FrontMisses(cs);
    MissedPaths(fs, fs', cs, front);
    ReachFurther(fs', front, last);
    ReachFurther(fs', cs, x);
    hide Reach;
  }

  lemma LongerPath(cs: seq<string>, x: string)
    ensures Slashed(cs + [x]) != Slashed(cs)
  {
    assert (cs + [x])[..|cs|] == cs;
  }

  /** Unmounting undoes mounting: every path leads where it did before. */
  lemma {:induction false} UnmountUndoesMount(fs: Fs, cs: seq<string>, m: Ino, q: seq<string>)
    requires PathsApart(fs.mounts) && |Slashed(cs)| <= 255 && MountedAt(fs, Slashed(cs), Some(m)).0 == 0
    ensures var fs' := UnmountedAt(MountedAt(fs, Slashed(cs), Some(m)).1, Slashed(cs)).1;
            fs'.nodes == fs.nodes && fs'.root == fs.root && Reach(fs', q) == Reach(fs, q)
    decreases |q|
  {
    var fs1 := MountedAt(fs, Slashed(cs), Some(m)).1;
    MountKeepsApart(fs, Slashed(cs), Some(m));
    MountChangesOnePoint(fs, Slashed(cs), Some(m), Slashed(q));
    UnmountChangesOnePoint(fs1, Slashed(cs), Slashed(q));
    MountAnswers(fs, Slashed(cs), Some(m));
    UnmountAnswers(fs1, Slashed(cs));
    assert MountAt(fs, Slashed(cs)) == None;
    hide MountedAt, UnmountedAt, MountAt, Slashed, PathsApart, LookupIn;
    if q != [] { UnmountUndoesMount(fs, cs, m, q[..|q| - 1]); }
  }
}

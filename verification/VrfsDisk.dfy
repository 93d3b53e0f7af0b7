/** What a VRFS disk means: the invariant of its blocks, the map from names to contents that they stand
    for, and what each write that src/fs/vrfs.c makes does to both. */
module VrfsDisk {
  import opened Common
  import opened VrfsLayout

  type Disk = seq<Block>
  type Name = seq<byte>

  const INODES := 128
  /** First block behind the 16 table blocks that mkfs reserves. */
  const DATA_START := 19
  /** The inodes whose 76-byte slots lie wholly in the reserved table blocks. */
  const SAFE_INODES := 96

  /** The block count that mkfs records. */
  function BlockCount(size: nat): nat {
    if size < 1024 then size else 1024
  }

  function InitialSuper(size: nat): Superblock {
    Superblock(MAGIC, BlockCount(size), 128, Wrap32(BlockCount(size) - 19), 127, 1, 2, 3, 19)
  }

  // ---------------------------------------------------------------- inode slots

  function InodeBlock(no: nat): nat {
    3 + no / 6
  }

  /** The inode in slot `no`; a slot beyond the device cannot be read. */
  function InodeAt(disk: Disk, no: nat): Inode {
    if InodeBlock(no) < |disk| then SlotInode(disk[InodeBlock(no)], no % 6) else DiskInode(0, 0, 0, 0, 0, Zeros(60))
  }

  /** vrfs_write_inode: a write beyond the device fails and changes nothing. */
  function PutInode(disk: Disk, no: nat, i: Inode): (r: Disk)
    ensures |r| == |disk|
  {
    if InodeBlock(no) < |disk| then
      disk[InodeBlock(no) := PutSlot(disk[InodeBlock(no)], no % 6, i)]
    else
      disk
  }

  lemma PutInodeRead(disk: Disk, no: nat, i: Inode, m: nat)
    ensures m != no ==> InodeAt(PutInode(disk, no, i), m) == InodeAt(disk, m)
    ensures InodeBlock(no) < |disk| ==> InodeAt(PutInode(disk, no, i), no) == i
  {
    if InodeBlock(no) < |disk| {
      SlotRead(disk[InodeBlock(no)], no % 6, i, m % 6);
      SlotRead(disk[InodeBlock(no)], no % 6, i, no % 6);
    }
  }

  /** An inode slot stays clear of the data area exactly when it is one of the first 96: the reserved
      blocks are too few for 128 inodes of 76 bytes. */
  lemma SlotClearOfData(no: nat)
    ensures InodeBlock(no) < DATA_START <==> no < SAFE_INODES
  {
  }

  /** Inode 96 is stored over the start of block 19, which is the root directory of every disk that has
      one: its first entry then names inode 65537, whatever was there before. */
  lemma Inode96OverwritesRoot(disk: Disk)
    requires |disk| > 19
    ensures var d := PutInode(disk, 96, EMPTY_FILE)[19];
            EntryInode(d, 0) == 65537 && CName(EntryName(d, 0)) == []
  {
    var d := PutSlot(disk[19], 0, EMPTY_FILE);
    SpliceRead(disk[19], 0, EncodeInode(EMPTY_FILE), 0, 76);
    var s := EncodeInode(EMPTY_FILE);
    assert forall k | 0 <= k < 76 :: d[k] == d[0..76][k] == s[k];
    assert d[4] == 0;
  }

  // ---------------------------------------------------------------- the directory

  /** The root directory's block, 0 if it has none yet. */
  function RootBlock(disk: Disk): nat {
    InodeAt(disk, 0).direct0
  }

  /** Directory slot i holds an entry. */
  predicate Live(disk: Disk, i: nat) {
    && i < 16 && RootBlock(disk) != 0 && RootBlock(disk) < |disk|
    && EntryInode(disk[RootBlock(disk)], i) != 0
  }

  function Ino(disk: Disk, i: nat): nat
    requires Live(disk, i)
  {
    EntryInode(disk[RootBlock(disk)], i)
  }

  function NameAt(disk: Disk, i: nat): Name
    requires Live(disk, i)
  {
    CName(EntryName(disk[RootBlock(disk)], i))
  }

  function FileAt(disk: Disk, i: nat): Inode
    requires Live(disk, i)
  {
    InodeAt(disk, Ino(disk, i))
  }

  /** The bytes of a file: the first `size` bytes of its data block. */
  function Content(disk: Disk, f: Inode): seq<byte> {
    if f.direct0 == 0 || f.direct0 >= |disk| || f.size > 512 then [] else disk[f.direct0][..f.size]
  }

  // ---------------------------------------------------------------- the invariant

  predicate Owned(disk: Disk, b: nat)
    requires |disk| > 3
  {
    DATA_START <= b < BlockCount(|disk|) && BitAt(disk[2], b)
  }

  /** A live entry names an allocated file whose data block, if any, is its own. */
  ghost predicate EntryOk(disk: Disk, n: nat, i: nat)
    requires |disk| > 3 && Live(disk, i)
  {
    var f := FileAt(disk, i);
    && 1 <= Ino(disk, i) < n && |NameAt(disk, i)| <= 27
    && f.mode == MODE_FILE && f.size <= 512
    && (if f.direct0 == 0 then f.size == 0 else f.size > 0 && Owned(disk, f.direct0) && f.direct0 != RootBlock(disk))
  }

  ghost predicate Apart(disk: Disk, i: nat, j: nat)
    requires Live(disk, i) && Live(disk, j)
  {
    && Ino(disk, i) != Ino(disk, j) && NameAt(disk, i) != NameAt(disk, j)
    && (FileAt(disk, i).direct0 != 0 ==> FileAt(disk, i).direct0 != FileAt(disk, j).direct0)
  }

  /** The invariant of a disk on which inodes 0 to n - 1 have been allocated. */
  ghost predicate DiskOk(disk: Disk, n: nat) {
    && 3 < |disk| < WORD && 1 <= n <= SAFE_INODES
    && DecodeSuper(disk[0]) == InitialSuper(|disk|)
    && (forall k: nat | k < INODES :: BitAt(disk[1], k) <==> k < n)
    && (forall k: nat | k < DATA_START :: BitAt(disk[2], k))
    && (RootBlock(disk) != 0 ==> Owned(disk, RootBlock(disk)))
    && (forall i: nat | Live(disk, i) :: EntryOk(disk, n, i))
    && (forall i: nat, j: nat | Live(disk, i) && Live(disk, j) && i != j :: Apart(disk, i, j))
  }

  /** Every data block has one owner: it lies in the data area, is marked in the bitmap, and is neither the
      root directory nor another file's block nor part of the inode table below slot 96. */
  lemma BlocksHaveOneOwner(disk: Disk, n: nat, i: nat, no: nat)
    requires DiskOk(disk, n) && Live(disk, i) && FileAt(disk, i).direct0 != 0 && no < SAFE_INODES
    ensures var b := FileAt(disk, i).direct0;
            && DATA_START <= b < BlockCount(|disk|) && BitAt(disk[2], b) && b != RootBlock(disk) && b != InodeBlock(no)
            && (forall j: nat | Live(disk, j) && FileAt(disk, j).direct0 == b :: j == i)
    ensures DATA_START <= RootBlock(disk) < BlockCount(|disk|) && BitAt(disk[2], RootBlock(disk))
  {
    SlotClearOfData(no);
    assert EntryOk(disk, n, i);
    hide InodeAt, EntryInode, EntryName, CName, NameAt, Ino, BitAt;
    forall j: nat | Live(disk, j) ensures j != i ==> Apart(disk, i, j) {}
  }

  // ---------------------------------------------------------------- the map from names to bytes

  ghost function Names(disk: Disk): set<Name> {
    set i: nat | i < 16 && Live(disk, i) :: NameAt(disk, i)
  }

  ghost function SlotOf(disk: Disk, name: Name): (i: nat)
    requires name in Names(disk)
    ensures Live(disk, i) && NameAt(disk, i) == name
  {
    var i: nat :| Live(disk, i) && NameAt(disk, i) == name;
    i
  }

  ghost function View(disk: Disk): map<Name, seq<byte>> {
    map name | name in Names(disk) :: Content(disk, FileAt(disk, SlotOf(disk, name)))
  }

  /** The view is the one map that agrees with every live slot and holds nothing else. */
  lemma ViewIs(disk: Disk, m: map<Name, seq<byte>>)
    requires forall i: nat | Live(disk, i) :: NameAt(disk, i) in m && m[NameAt(disk, i)] == Content(disk, FileAt(disk, i))
    requires forall name | name in m :: exists i: nat :: Live(disk, i) && NameAt(disk, i) == name
    ensures View(disk) == m
  {
    hide InodeAt, EntryInode, EntryName, CName, Content, RootBlock, NameAt, Ino, FileAt;
    forall name ensures name in Names(disk) <==> name in m {
      if name in m {
        var i: nat :| Live(disk, i) && NameAt(disk, i) == name;
        assert NameAt(disk, i) in Names(disk);
      }
    }
    forall name | name in m ensures View(disk)[name] == m[name] {
      var i := SlotOf(disk, name);
    }
  }

  lemma ViewAt(disk: Disk, n: nat, i: nat)
    requires DiskOk(disk, n) && Live(disk, i)
    ensures NameAt(disk, i) in View(disk) && View(disk)[NameAt(disk, i)] == Content(disk, FileAt(disk, i))
  {
    hide InodeAt, EntryInode, EntryName, CName, RootBlock;
    var name := NameAt(disk, i);
    assert name in Names(disk);
    hide Content, DiskOk;
    var j := SlotOf(disk, name);
    if i != j {
      LiveApart(disk, n, i, j);
      assert false;
    }
  }

  lemma LiveOk(disk: Disk, n: nat, i: nat)
    requires DiskOk(disk, n) && Live(disk, i)
    ensures EntryOk(disk, n, i)
  {
  }

  lemma LiveApart(disk: Disk, n: nat, i: nat, j: nat)
    requires DiskOk(disk, n) && Live(disk, i) && Live(disk, j) && i != j
    ensures Apart(disk, i, j)
  {
  }

  /** A live file is empty exactly if it has no block. */
  lemma EmptyFile(disk: Disk, n: nat, i: nat)
    requires DiskOk(disk, n) && Live(disk, i)
    ensures NameAt(disk, i) in View(disk)
    ensures View(disk)[NameAt(disk, i)] == [] <==> FileAt(disk, i).direct0 == 0
  {
    ViewAt(disk, n, i);
    LiveOk(disk, n, i);
    hide View, DiskOk, InodeAt, EntryInode, EntryName, CName, BitAt;
  }

  // ---------------------------------------------------------------- how full a disk is

  /** How many data blocks the bitmap of a device of `size` blocks can hand out. */
  function Capacity(size: nat): nat {
    if BlockCount(size) < DATA_START then 0 else BlockCount(size) - DATA_START
  }

  ghost function TakenBlocks(disk: Disk): set<nat>
    requires |disk| > 3
  {
    set k: nat | k < BlockCount(|disk|) && DATA_START <= k && BitAt(disk[2], k)
  }

  ghost function Taken(disk: Disk): nat
    requires |disk| > 3
  {
    |TakenBlocks(disk)|
  }

  lemma TakenFull(disk: Disk, n: nat)
    requires DiskOk(disk, n)
    ensures Taken(disk) <= Capacity(|disk|)
    ensures (forall k: nat | k < BlockCount(|disk|) :: BitAt(disk[2], k)) <==> Taken(disk) == Capacity(|disk|)
  {
    var all := Interval(DATA_START, BlockCount(|disk|));
    hide BitAt, InodeAt;
    if BlockCount(|disk|) < DATA_START {
      assert TakenBlocks(disk) == {};
    } else {
      IntervalSize(DATA_START, BlockCount(|disk|));
      SubsetSize(TakenBlocks(disk), all);
      if k: nat :| k < BlockCount(|disk|) && !BitAt(disk[2], k) {
        assert k in all && TakenBlocks(disk) <= all - {k};
        SubsetSize(TakenBlocks(disk), all - {k});
      } else {
        assert TakenBlocks(disk) == all;
      }
    }
  }

  lemma TakenMore(disk: Disk, disk': Disk, b: nat)
    requires 3 < |disk| == |disk'| && DATA_START <= b < BlockCount(|disk|)
    requires disk'[2] == SetBitAt(disk[2], b) && !BitAt(disk[2], b)
    ensures Taken(disk') == Taken(disk) + 1
  {
    forall k: nat | k < 1024 ensures BitAt(disk'[2], k) <==> k == b || BitAt(disk[2], k) {
      SetBitRead(disk[2], b, k);
    }
    hide BitAt, SetBitAt;
    assert TakenBlocks(disk') == TakenBlocks(disk) + {b};
  }

  ghost function Slots(disk: Disk, k: nat): set<nat> {
    set i: nat | i < k && Live(disk, i)
  }

  ghost function NamesBelow(disk: Disk, k: nat): set<Name> {
    set i: nat | i < k && Live(disk, i) :: NameAt(disk, i)
  }

  lemma NamesApart(disk: Disk, n: nat, i: nat, j: nat)
    requires DiskOk(disk, n) && Live(disk, i) && Live(disk, j) && i != j
    ensures NameAt(disk, i) != NameAt(disk, j)
  {
    LiveApart(disk, n, i, j);
  }

  lemma {:induction false} NamesDiffer(disk: Disk, n: nat, k: nat)
    requires DiskOk(disk, n)
    ensures |NamesBelow(disk, k)| == |Slots(disk, k)|
  {
    hide NameAt, Live, DiskOk, Apart;
    if k > 0 {
      NamesDiffer(disk, n, k - 1);
      if Live(disk, k - 1) {
        assert Slots(disk, k) == Slots(disk, k - 1) + {k - 1};
        assert NamesBelow(disk, k) == NamesBelow(disk, k - 1) + {NameAt(disk, k - 1)};
        if i: nat :| i < k - 1 && Live(disk, i) && NameAt(disk, i) == NameAt(disk, k - 1) {
          NamesApart(disk, n, i, k - 1);
        }
      } else {
        assert Slots(disk, k) == Slots(disk, k - 1) && NamesBelow(disk, k) == NamesBelow(disk, k - 1);
      }
    }
  }

  lemma NamesOfView(disk: Disk)
    ensures View(disk).Keys == Names(disk) == NamesBelow(disk, 16)
  {
    hide NameAt, Live, Content, FileAt, Ino;
  }

  lemma AllSlots(disk: Disk)
    ensures |Slots(disk, 16)| <= 16
    ensures (forall i: nat | i < 16 :: Live(disk, i)) <==> |Slots(disk, 16)| == 16
  {
    hide Live;
    var all := Interval(0, 16);
    IntervalSize(0, 16);
    SubsetSize(Slots(disk, 16), all);
    if i: nat :| i < 16 && !Live(disk, i) {
      assert i in all && Slots(disk, 16) <= all - {i};
      SubsetSize(Slots(disk, 16), all - {i});
    } else {
      assert Slots(disk, 16) == all;
    }
  }

  /** All 16 slots of the directory are used exactly if there are 16 files. */
  lemma SlotsFull(disk: Disk, n: nat)
    requires DiskOk(disk, n)
    ensures |View(disk)| <= 16
    ensures (forall i: nat | i < 16 :: Live(disk, i)) <==> |View(disk)| == 16
  {
    hide Live, NamesBelow, Slots, View, DiskOk, Names;
    NamesDiffer(disk, n, 16);
    NamesOfView(disk);
    AllSlots(disk);
    assert |View(disk)| == |View(disk).Keys|;
  }

  // ---------------------------------------------------------------- writes that change no file

  /** Block b is neither the directory nor the data of a live file. */
  ghost predicate Unowned(disk: Disk, b: nat) {
    b != RootBlock(disk) && forall i: nat | Live(disk, i) :: FileAt(disk, i).direct0 != b
  }

  /** A clear bit means that nobody owns the block. */
  lemma ClearIsUnowned(disk: Disk, n: nat, b: nat)
    requires DiskOk(disk, n) && 0 < b < 4096 && !BitAt(disk[2], b)
    ensures Unowned(disk, b)
  {
    forall i: nat | Live(disk, i) ensures FileAt(disk, i).direct0 != b {
      assert EntryOk(disk, n, i);
    }
  }

  /** Directory, live inodes and live data are as before; bitmaps have only grown. */
  ghost predicate SameFiles(disk: Disk, n: nat, disk': Disk, n': nat) {
    && |disk'| == |disk| && |disk| > 3 && disk'[0] == disk[0] && n <= n' <= SAFE_INODES
    && (forall k: nat | k < INODES :: BitAt(disk'[1], k) <==> k < n')
    && (forall k: nat | k < 1024 && BitAt(disk[2], k) :: BitAt(disk'[2], k))
    && RootBlock(disk') == RootBlock(disk)
    && (RootBlock(disk) != 0 && RootBlock(disk) < |disk| ==> disk'[RootBlock(disk)] == disk[RootBlock(disk)])
    && (forall i: nat | Live(disk, i) ::
          && InodeAt(disk', Ino(disk, i)) == FileAt(disk, i)
          && (FileAt(disk, i).direct0 != 0 && FileAt(disk, i).direct0 < |disk| ==>
                disk'[FileAt(disk, i).direct0] == disk[FileAt(disk, i).direct0]))
  }

  /** A live slot of the old disk is a live slot of the new one, with the same name, inode and content. */
  lemma SameEntry(disk: Disk, n: nat, disk': Disk, n': nat, i: nat)
    requires DiskOk(disk, n) && SameFiles(disk, n, disk', n')
    ensures Live(disk', i) <==> Live(disk, i)
    ensures Live(disk, i) ==>
              && Ino(disk', i) == Ino(disk, i) && NameAt(disk', i) == NameAt(disk, i) && FileAt(disk', i) == FileAt(disk, i)
              && Content(disk', FileAt(disk, i)) == Content(disk, FileAt(disk, i)) && EntryOk(disk', n', i)
  {
    hide InodeAt, EntryInode, EntryName, CName;
    if Live(disk, i) {
      LiveOk(disk, n, i);
    }
  }

  lemma SameFilesKeeps(disk: Disk, n: nat, disk': Disk, n': nat)
    requires DiskOk(disk, n) && SameFiles(disk, n, disk', n')
    ensures DiskOk(disk', n') && View(disk') == View(disk)
  {
    forall i: nat
      ensures Live(disk', i) <==> Live(disk, i)
      ensures Live(disk, i) ==>
              && Ino(disk', i) == Ino(disk, i) && NameAt(disk', i) == NameAt(disk, i) && FileAt(disk', i) == FileAt(disk, i)
              && Content(disk', FileAt(disk, i)) == Content(disk, FileAt(disk, i)) && EntryOk(disk', n', i)
    {
      SameEntry(disk, n, disk', n', i);
    }
    hide InodeAt, EntryInode, EntryName, CName, Content, Live, FileAt, Ino, NameAt, EntryOk;
    forall i: nat, j: nat | Live(disk', i) && Live(disk', j) && i != j ensures Apart(disk', i, j) {
      LiveApart(disk, n, i, j);
    }
    forall i: nat | Live(disk', i)
      ensures NameAt(disk', i) in View(disk) && View(disk)[NameAt(disk', i)] == Content(disk', FileAt(disk', i))
    {
      ViewAt(disk, n, i);
    }
    forall name | name in View(disk) ensures exists i: nat :: Live(disk', i) && NameAt(disk', i) == name {
      var i := SlotOf(disk, name);
      assert Live(disk', i) && NameAt(disk', i) == name;
    }
    ViewIs(disk', View(disk));
  }

  lemma MarkInode(disk: Disk, n: nat)
    requires DiskOk(disk, n) && n < SAFE_INODES
    ensures var disk' := disk[1 := SetBitAt(disk[1], n)];
            DiskOk(disk', n + 1) && View(disk') == View(disk)
  {
    var disk' := disk[1 := SetBitAt(disk[1], n)];
    forall k: nat | k < INODES ensures BitAt(disk'[1], k) <==> k < n + 1 {
      SetBitRead(disk[1], n, k);
    }
    assert InodeAt(disk', 0) == InodeAt(disk, 0);
    hide DecodeInode, BitAt, SetBitAt;
    SameFilesKeeps(disk, n, disk', n + 1);
  }

  lemma MarkBlock(disk: Disk, n: nat, b: nat)
    requires DiskOk(disk, n) && b < 1024
    ensures var disk' := disk[2 := SetBitAt(disk[2], b)];
            DiskOk(disk', n) && View(disk') == View(disk) && BitAt(disk'[2], b)
            && (Unowned(disk, b) ==> Unowned(disk', b))
  {
    var disk' := disk[2 := SetBitAt(disk[2], b)];
    forall k: nat | k < 1024 ensures BitAt(disk'[2], k) <==> k == b || BitAt(disk[2], k) {
      SetBitRead(disk[2], b, k);
    }
    assert InodeAt(disk', 0) == InodeAt(disk, 0);
    hide DecodeInode, BitAt, SetBitAt;
    forall i: nat ensures Live(disk', i) <==> Live(disk, i)
      ensures Live(disk, i) ==> FileAt(disk', i) == FileAt(disk, i) {
      if Live(disk, i) { LiveOk(disk, n, i); }
    }
    SameFilesKeeps(disk, n, disk', n);
  }

  /** Writing an inode that no entry refers to, or the root's with the same block. */
  lemma PutInodeKeeps(disk: Disk, n: nat, no: nat, f: Inode)
    requires DiskOk(disk, n) && no < SAFE_INODES
    requires forall i: nat | Live(disk, i) :: Ino(disk, i) != no
    requires no == 0 ==> f.direct0 == RootBlock(disk)
    ensures var disk' := PutInode(disk, no, f);
            DiskOk(disk', n) && View(disk') == View(disk)
  {
    var disk' := PutInode(disk, no, f);
    SlotClearOfData(no);
    PutInodeRead(disk, no, f, 0);
    forall i: nat | Live(disk, i)
      ensures InodeAt(disk', Ino(disk, i)) == FileAt(disk, i)
      ensures FileAt(disk, i).direct0 == 0 || FileAt(disk, i).direct0 >= DATA_START
    {
      PutInodeRead(disk, no, f, Ino(disk, i));
      LiveOk(disk, n, i);
    }
    hide InodeAt, BitAt;
    SameFilesKeeps(disk, n, disk', n);
  }

  /** The root directory gets its block: an allocated block that is then cleared. */
  lemma NewRoot(disk: Disk, n: nat, r: Inode)
    requires DiskOk(disk, n) && RootBlock(disk) == 0 && Owned(disk, r.direct0)
    ensures var disk' := PutInode(disk, 0, r)[r.direct0 := ZERO_BLOCK];
            DiskOk(disk', n) && View(disk') == View(disk) == map[] && InodeAt(disk', 0) == r
  {
    var disk1 := PutInode(disk, 0, r);
    PutInodeRead(disk, 0, r, 0);
    var disk' := disk1[r.direct0 := ZERO_BLOCK];
    assert InodeAt(disk', 0) == InodeAt(disk1, 0) == r;
    forall i: nat ensures !Live(disk', i) {
      if i < 16 { assert EntryInode(ZERO_BLOCK, i) == 0; }
    }
    assert Names(disk') == {} && Names(disk) == {};
  }

  // ---------------------------------------------------------------- writes that change one file

  /** The part of a name that a directory entry keeps. */
  function Cut(name: Name): (r: Name)
    ensures |r| <= 27 && r <= name && (0 !in name ==> 0 !in r)
  {
    if |name| <= 27 then name else name[..27]
  }

  /** A name as vrfs_add_dir_entry stores it: at most 27 bytes, a zero, and what was there before. */
  function StoredName(was: seq<byte>, name: Name): (s: seq<byte>)
    requires |was| == 28
    ensures |s| == 28
  {
    Cut(name) + [0] + was[|Cut(name)| + 1..]
  }

  lemma StoredNameReads(was: seq<byte>, name: Name)
    requires |was| == 28 && 0 !in name
    ensures CName(StoredName(was, name)) == Cut(name)
  {
    CNameUnique(StoredName(was, name), Cut(name));
  }

  /** The comparison of vrfs_lookup and vrfs_unlink: byte by byte, 28 at most, up to the stored zero. */
  predicate Matches(stored: seq<byte>, name: Name)
    requires |stored| == 28
  {
    CName(stored) == name || (|CName(stored)| == 28 && CName(stored) <= name)
  }

  /** A file is found again under the name it was created with exactly if the name has at most 27 bytes. */
  lemma FoundAgain(was: seq<byte>, name: Name)
    requires |was| == 28 && 0 !in name
    ensures Matches(StoredName(was, name), name) <==> |name| <= 27
  {
    StoredNameReads(was, name);
  }

  /** vrfs_add_dir_entry on a free slot, for a new, empty file. */
  lemma AddEntry(disk: Disk, n: nat, i: nat, no: uint32, name: Name)
    requires DiskOk(disk, n) && RootBlock(disk) != 0 && i < 16 && !Live(disk, i)
    requires 1 <= no < n && InodeAt(disk, no) == EMPTY_FILE && forall j: nat | Live(disk, j) :: Ino(disk, j) != no
    requires 0 !in name && Cut(name) !in View(disk)
    ensures var r := RootBlock(disk);
            var disk' := disk[r := PutEntry(disk[r], i, no, StoredName(EntryName(disk[r], i), name))];
            && DiskOk(disk', n) && View(disk') == View(disk)[Cut(name) := []]
            && Live(disk', i) && NameAt(disk', i) == Cut(name) && Ino(disk', i) == no && FileAt(disk', i) == EMPTY_FILE
  {
    var r := RootBlock(disk);
    var stored := StoredName(EntryName(disk[r], i), name);
    var disk' := disk[r := PutEntry(disk[r], i, no, stored)];
    StoredNameReads(EntryName(disk[r], i), name);
    EntrySlots(disk, n, i, no, stored);
    hide InodeAt, EntryInode, EntryName, PutEntry, StoredName, CName;
    assert EntryOk(disk', n, i);
    OneChanged(disk, n, disk', i, []);
  }

  /** Rewriting entry i of the directory block leaves the other entries and all files alone. */
  lemma EntrySlots(disk: Disk, n: nat, i: nat, no: uint32, stored: seq<byte>)
    requires DiskOk(disk, n) && RootBlock(disk) != 0 && i < 16 && |stored| == 28
    ensures var r := RootBlock(disk);
            var disk' := disk[r := PutEntry(disk[r], i, no, stored)];
            && RootBlock(disk') == r && (Live(disk', i) <==> no != 0)
            && (no != 0 ==> Ino(disk', i) == no && NameAt(disk', i) == CName(stored))
            && (0 < no < SAFE_INODES ==> FileAt(disk', i) == InodeAt(disk, no))
            && (forall j: nat | j != i :: Live(disk', j) <==> Live(disk, j))
            && (forall j: nat | j != i && Live(disk, j) :: KeptEntry(disk, disk', j) && EntryOk(disk', n, j))
  {
    var r := RootBlock(disk);
    var disk' := disk[r := PutEntry(disk[r], i, no, stored)];
    InodesElsewhere(disk, n, r, disk');
    EntryRead(disk[r], i, no, stored, i);
    hide InodeAt, PutEntry;
    forall j: nat | j != i
      ensures Live(disk', j) <==> Live(disk, j)
      ensures Live(disk, j) ==> KeptEntry(disk, disk', j) && EntryOk(disk', n, j)
    {
      if j < 16 { OtherSlot(disk, n, disk', i, no, stored, j); }
    }
  }

  lemma OtherSlot(disk: Disk, n: nat, disk': Disk, i: nat, no: uint32, stored: seq<byte>, j: nat)
    requires DiskOk(disk, n) && RootBlock(disk) != 0 && i < 16 && |stored| == 28 && j < 16 && j != i
    requires disk' == disk[RootBlock(disk) := PutEntry(disk[RootBlock(disk)], i, no, stored)]
    requires RootBlock(disk') == RootBlock(disk)
    requires forall m: nat | m < SAFE_INODES :: InodeAt(disk', m) == InodeAt(disk, m)
    ensures Live(disk', j) <==> Live(disk, j)
    ensures Live(disk, j) ==> KeptEntry(disk, disk', j) && EntryOk(disk', n, j)
  {
    var r := RootBlock(disk);
    assert r < |disk|;
    EntryRead(disk[r], i, no, stored, j);
    if Live(disk, j) {
      LiveOk(disk, n, j);
      hide DiskOk, InodeAt, PutEntry, EntryInode, EntryName, CName, BitAt;
      SlotKept(disk, n, disk', j);
    }
  }

  /** An entry of the directory block that reads as before, while no inode and no other block has changed. */
  lemma SlotKept(disk: Disk, n: nat, disk': Disk, j: nat)
    requires Live(disk, j) && 3 < |disk| == |disk'| && EntryOk(disk, n, j) && n <= SAFE_INODES
    requires RootBlock(disk') == RootBlock(disk) && RootBlock(disk) >= DATA_START
    requires forall b: nat | b < |disk| && b != RootBlock(disk) :: disk'[b] == disk[b]
    requires EntryInode(disk'[RootBlock(disk)], j) == EntryInode(disk[RootBlock(disk)], j)
    requires EntryName(disk'[RootBlock(disk)], j) == EntryName(disk[RootBlock(disk)], j)
    requires forall m: nat | m < SAFE_INODES :: InodeAt(disk', m) == InodeAt(disk, m)
    ensures KeptEntry(disk, disk', j) && EntryOk(disk', n, j)
  {
    hide InodeAt, EntryInode, EntryName, CName, BitAt;
  }

  /** Blocks of the data area hold no inode slot that is in use. */
  lemma InodesElsewhere(disk: Disk, n: nat, b: nat, disk': Disk)
    requires DiskOk(disk, n) && b >= DATA_START && b < |disk| && |disk'| == |disk| && disk' == disk[b := disk'[b]]
    ensures forall no: nat | no < SAFE_INODES :: InodeAt(disk', no) == InodeAt(disk, no)
    ensures RootBlock(disk') == RootBlock(disk)
  {
    forall no: nat | no < SAFE_INODES ensures InodeAt(disk', no) == InodeAt(disk, no) {
      SlotClearOfData(no);
    }
  }

  ghost predicate KeptEntry(disk: Disk, disk': Disk, j: nat)
    requires Live(disk, j)
  {
    && Live(disk', j) && NameAt(disk', j) == NameAt(disk, j) && Ino(disk', j) == Ino(disk, j)
    && FileAt(disk', j) == FileAt(disk, j) && Content(disk', FileAt(disk', j)) == Content(disk, FileAt(disk, j))
  }

  /** Slot i now holds a file with content c; every other slot is as before. */
  lemma OneChanged(disk: Disk, n: nat, disk': Disk, i: nat, c: seq<byte>)
    requires DiskOk(disk, n) && |disk'| == |disk| && disk'[0] == disk[0] && disk'[1] == disk[1]
    requires forall k: nat | k < 1024 && BitAt(disk[2], k) :: BitAt(disk'[2], k)
    requires RootBlock(disk') == RootBlock(disk)
    requires Live(disk', i) && EntryOk(disk', n, i) && Content(disk', FileAt(disk', i)) == c
    requires Live(disk, i) ==> NameAt(disk', i) == NameAt(disk, i) && Ino(disk', i) == Ino(disk, i)
    requires !Live(disk, i) ==> NameAt(disk', i) !in View(disk) && forall j: nat | Live(disk, j) :: Ino(disk, j) != Ino(disk', i)
    requires FileAt(disk', i).direct0 != 0 ==>
               forall j: nat | Live(disk, j) && j != i :: FileAt(disk, j).direct0 != FileAt(disk', i).direct0
    requires forall j: nat | j != i :: Live(disk', j) <==> Live(disk, j)
    requires forall j: nat | j != i && Live(disk, j) :: KeptEntry(disk, disk', j) && EntryOk(disk', n, j)
    ensures DiskOk(disk', n) && View(disk') == View(disk)[NameAt(disk', i) := c]
  {
    hide InodeAt, EntryInode, EntryName, CName, Content, Live, FileAt, Ino, NameAt, EntryOk;
    forall j: nat, k: nat | Live(disk', j) && Live(disk', k) && j != k ensures Apart(disk', j, k) {
      if j != i && k != i {
        LiveApart(disk, n, j, k);
      } else {
        var l := if j == i then k else j;
        ViewAt(disk, n, l);
        if Live(disk, i) { LiveApart(disk, n, l, i); }
      }
    }
    var name := NameAt(disk', i);
    var m := View(disk)[name := c];
    forall j: nat | Live(disk', j)
      ensures NameAt(disk', j) in m && m[NameAt(disk', j)] == Content(disk', FileAt(disk', j))
    {
      if j != i {
        ViewAt(disk, n, j);
        assert Apart(disk', j, i);
      }
    }
    forall x | x in m ensures exists j: nat :: Live(disk', j) && NameAt(disk', j) == x {
      if x == name {
        assert Live(disk', i) && NameAt(disk', i) == x;
      } else {
        var j := SlotOf(disk, x);
        assert j != i;
        assert Live(disk', j) && NameAt(disk', j) == x;
      }
    }
    ViewIs(disk', m);
  }

  /** vrfs_write on the file of slot i: its data block b, newly allocated or its own, then its inode. */
  lemma WriteFile(disk: Disk, n: nat, i: nat, b: uint32, data: seq<byte>, f: Inode)
    requires DiskOk(disk, n) && Live(disk, i) && Owned(disk, b) && 0 < |data| <= 512
    requires b == FileAt(disk, i).direct0 || Unowned(disk, b)
    requires f.mode == MODE_FILE && f.direct0 == b && f.size == |data|
    ensures var block: Block := data + Zeros(512 - |data|);
            var disk' := PutInode(disk[b := block], Ino(disk, i), f);
            && DiskOk(disk', n) && View(disk') == View(disk)[NameAt(disk, i) := data]
            && Live(disk', i) && NameAt(disk', i) == NameAt(disk, i) && Ino(disk', i) == Ino(disk, i) && FileAt(disk', i) == f
  {
    var block: Block := data + Zeros(512 - |data|);
    var no := Ino(disk, i);
    var disk1 := disk[b := block];
    var disk' := PutInode(disk1, no, f);
    LiveOk(disk, n, i);
    InodesElsewhere(disk, n, b, disk1);
    SlotClearOfData(no);
    assert RootBlock(disk) != b by { if b != FileAt(disk, i).direct0 { assert Unowned(disk, b); } }
    forall m: nat | m < SAFE_INODES
      ensures InodeAt(disk', m) == if m == no then f else InodeAt(disk, m)
    {
      PutInodeRead(disk1, no, f, m);
    }
    assert disk'[b] == block && block[..|data|] == data;
    assert forall x: nat | DATA_START <= x < |disk| && x != b :: disk'[x] == disk[x];
    WriteSlots(disk, n, disk', i, b, f);
    OneChanged(disk, n, disk', i, data);
  }

  lemma WriteSlots(disk: Disk, n: nat, disk': Disk, i: nat, b: uint32, f: Inode)
    requires DiskOk(disk, n) && Live(disk, i) && Owned(disk, b) && RootBlock(disk) != b && |disk'| == |disk|
    requires b == FileAt(disk, i).direct0 || Unowned(disk, b)
    requires f.mode == MODE_FILE && f.direct0 == b && 0 < f.size <= 512
    requires forall m: nat | m < SAFE_INODES :: InodeAt(disk', m) == if m == Ino(disk, i) then f else InodeAt(disk, m)
    requires disk'[2] == disk[2] && forall x: nat | DATA_START <= x < |disk| && x != b :: disk'[x] == disk[x]
    ensures RootBlock(disk') == RootBlock(disk)
    ensures Live(disk', i) && NameAt(disk', i) == NameAt(disk, i) && Ino(disk', i) == Ino(disk, i) && FileAt(disk', i) == f
    ensures EntryOk(disk', n, i)
    ensures forall j: nat | j != i :: Live(disk', j) <==> Live(disk, j)
    ensures forall j: nat | j != i && Live(disk, j) :: KeptEntry(disk, disk', j) && EntryOk(disk', n, j)
    ensures forall j: nat | j != i && Live(disk, j) :: FileAt(disk, j).direct0 != b
  {
    hide InodeAt, EntryInode, EntryName, CName;
    LiveOk(disk, n, i);
    forall j: nat | j != i
      ensures Live(disk', j) <==> Live(disk, j)
      ensures Live(disk, j) ==> KeptEntry(disk, disk', j) && EntryOk(disk', n, j) && FileAt(disk, j).direct0 != b
    {
      if Live(disk, j) {
        LiveOk(disk, n, j);
        LiveApart(disk, n, i, j);
      }
    }
  }

  /** vrfs_unlink: clearing an entry removes its name and nothing else. */
  lemma RemoveEntry(disk: Disk, n: nat, i: nat)
    requires DiskOk(disk, n) && Live(disk, i)
    ensures var r := RootBlock(disk);
            var disk' := disk[r := PutEntry(disk[r], i, 0, Zeros(28))];
            DiskOk(disk', n) && View(disk') == View(disk) - {NameAt(disk, i)}
  {
    var r := RootBlock(disk);
    var disk' := disk[r := PutEntry(disk[r], i, 0, Zeros(28))];
    EntrySlots(disk, n, i, 0, Zeros(28));
    hide InodeAt, EntryInode, EntryName, PutEntry;
    OneRemoved(disk, n, disk', i);
  }

  lemma OneRemoved(disk: Disk, n: nat, disk': Disk, i: nat)
    requires DiskOk(disk, n) && |disk'| == |disk| && disk'[0] == disk[0] && disk'[1] == disk[1] && disk'[2] == disk[2]
    requires RootBlock(disk') == RootBlock(disk) && Live(disk, i) && !Live(disk', i)
    requires forall j: nat | j != i :: Live(disk', j) <==> Live(disk, j)
    requires forall j: nat | j != i && Live(disk, j) :: KeptEntry(disk, disk', j) && EntryOk(disk', n, j)
    ensures DiskOk(disk', n) && View(disk') == View(disk) - {NameAt(disk, i)}
  {
    hide InodeAt, EntryInode, EntryName, CName, Content, Live, FileAt, Ino, NameAt, EntryOk;
    forall j: nat, k: nat | Live(disk', j) && Live(disk', k) && j != k ensures Apart(disk', j, k) {
      LiveApart(disk, n, j, k);
    }
    var m := View(disk) - {NameAt(disk, i)};
    forall j: nat | Live(disk', j)
      ensures NameAt(disk', j) in m && m[NameAt(disk', j)] == Content(disk', FileAt(disk', j))
    {
      ViewAt(disk, n, j);
      LiveApart(disk, n, j, i);
    }
    forall x | x in m ensures exists j: nat :: Live(disk', j) && NameAt(disk', j) == x {
      var j := SlotOf(disk, x);
      assert Live(disk', j) && NameAt(disk', j) == x;
    }
    ViewIs(disk', m);
  }
}

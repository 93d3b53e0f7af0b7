/** Whole runs of VRFS: mkfs, mount, and then any sequence of calls and remounts give exactly the answers of a
    map with two counters. */
module VrfsRuns {
  import opened Common
  import opened VrfsLayout
  import opened VrfsDisk
  import opened Vrfs

  /** A call as the VFS makes it: reads and writes go through a lookup made just before. */
  datatype Call = Create(name: Name) | Unlink(name: Name) | Write(name: Name, data: seq<byte>)
                | Read(name: Name, size: uint32) | Remount

  datatype Result = Failed | Done | Bytes(data: seq<byte>)

  /** What there is to know about a file system: the files, whether the directory has a block, and how many
      blocks and inodes are gone. Neither ever comes back. */
  datatype Model = Model(files: map<Name, seq<byte>>, root: bool, blocks: nat, inodes: nat)

  const EMPTY := Model(map[], false, 0, 1)

  /** Another name can be entered: there is a directory block, or one left for it, and it has a free slot. */
  predicate RoomForName(m: Model, capacity: nat) {
    if m.root then |m.files| < 16 else m.blocks < capacity
  }

  /** A write of an existing file needs a proper size and, if the file is still empty, a free block. */
  predicate RoomForData(m: Model, name: Name, size: nat, capacity: nat) {
    name in m.files && 0 < size <= 512 && (m.files[name] == [] ==> m.blocks < capacity)
  }

  /** The answer of a device with the given number of data blocks. */
  function Answer(m: Model, c: Call, capacity: nat): Result {
    match c
    case Create(name) => if name in m.files || RoomForName(m, capacity) then Done else Failed
    case Unlink(name) => if name in m.files then Done else Failed
    case Write(name, data) => if RoomForData(m, name, |data|, capacity) then Done else Failed
    case Read(name, size) =>
      if name !in m.files then Failed
      else Bytes(if size < |m.files[name]| then m.files[name][..size] else m.files[name])
    case Remount => Done
  }

  function After(m: Model, c: Call, capacity: nat): Model {
    match c
    case Create(name) =>
      if name in m.files then m
      else if !RoomForName(m, capacity) then m.(inodes := m.inodes + 1)
      else Model(m.files[Cut(name) := []], true, m.blocks + (if m.root then 0 else 1), m.inodes + 1)
    case Unlink(name) => m.(files := m.files - {name})
    case Write(name, data) =>
      if !RoomForData(m, name, |data|, capacity) then m
      else m.(files := m.files[name := data], blocks := m.blocks + if m.files[name] == [] then 1 else 0)
    case Read(_, _) => m
    case Remount => m
  }

  function AfterAll(calls: seq<Call>, capacity: nat): Model {
    if calls == [] then EMPTY
    else After(AfterAll(calls[..|calls| - 1], capacity), calls[|calls| - 1], capacity)
  }

  /** Names have no zero byte. A new name must not be cut to one that exists, and must get an inode that mkfs
      really has room for. */
  predicate Safe(m: Model, c: Call) {
    match c
    case Create(name) => 0 !in name && (name in m.files || (Cut(name) !in m.files && m.inodes < SAFE_INODES))
    case Unlink(name) => 0 !in name
    case Write(name, _) => 0 !in name
    case Read(name, _) => 0 !in name
    case Remount => true
  }

  /** The disk holds this state: the files, the blocks with one owner each, and the exact counts. */
  ghost predicate Stands(disk: Disk, m: Model) {
    && DiskOk(disk, m.inodes) && View(disk) == m.files && (RootBlock(disk) != 0 <==> m.root)
    && Taken(disk) == m.blocks <= Capacity(|disk|)
  }

  /** The bitmap and the directory are full when the counts say so. */
  lemma RoomOnDisk(fs: Vrfs, m: Model)
    requires fs.Valid() && Stands(fs.dev.blocks, m)
    ensures fs.DirectoryFull() <==> !RoomForName(m, Capacity(|fs.dev.blocks|))
    ensures (forall k: nat | k < fs.sb.blockCount :: BitAt(fs.blockBitmap, k)) <==> m.blocks == Capacity(|fs.dev.blocks|)
  {
    hide DiskOk, View, BitAt, Live, Taken;
    TakenFull(fs.dev.blocks, m.inodes);
    SlotsFull(fs.dev.blocks, m.inodes);
  }

  method PerformCreate(fs: Vrfs, name: Name, ghost m: Model) returns (r: Result)
    requires fs.Valid() && Stands(fs.dev.blocks, m) && fs.inodesUsed == m.inodes && Safe(m, Create(name))
    modifies fs, fs.dev
    ensures fs.Valid() && |fs.dev.blocks| == |old(fs.dev.blocks)|
    ensures var cap := Capacity(|fs.dev.blocks|);
            && r == Answer(m, Create(name), cap) && fs.inodesUsed == After(m, Create(name), cap).inodes
            && Stands(fs.dev.blocks, After(m, Create(name), cap))
  {
    hide View, DiskOk, Taken, BitAt, Live;
    RoomOnDisk(fs, m);
    var h := fs.Create(name);
    r := if h != null then Done else Failed;
    TakenFull(fs.dev.blocks, fs.inodesUsed);
  }

  method PerformWrite(fs: Vrfs, name: Name, data: seq<byte>, ghost m: Model) returns (r: Result)
    requires fs.Valid() && Stands(fs.dev.blocks, m) && fs.inodesUsed == m.inodes && 0 !in name
    modifies fs, fs.dev
    ensures fs.Valid() && fs.inodesUsed == m.inodes && |fs.dev.blocks| == |old(fs.dev.blocks)|
    ensures var cap := Capacity(|fs.dev.blocks|);
            r == Answer(m, Write(name, data), cap) && Stands(fs.dev.blocks, After(m, Write(name, data), cap))
  {
    hide View, DiskOk, Taken, BitAt, Live;
    RoomOnDisk(fs, m);
    r := Failed;
    var h := fs.Lookup(name);
    if h != null {
      var n := fs.Write(h, data, 0, name);
      r := if n == -1 then Failed else Done;
      TakenFull(fs.dev.blocks, fs.inodesUsed);
    }
  }

  /** One call: the answer and the new state are those of the model. */
  method Perform(fs: Vrfs, c: Call, ghost m: Model) returns (fs': Vrfs, r: Result)
    requires fs.Valid() && Stands(fs.dev.blocks, m) && fs.inodesUsed == m.inodes && Safe(m, c)
    modifies fs, fs.dev
    ensures fs'.Valid() && fs'.dev == fs.dev && (fs' == fs || fresh(fs')) && |fs.dev.blocks| == |old(fs.dev.blocks)|
    ensures var cap := Capacity(|fs.dev.blocks|);
            && r == Answer(m, c, cap) && fs'.inodesUsed == After(m, c, cap).inodes
            && Stands(fs.dev.blocks, After(m, c, cap))
  {
    hide View, DiskOk, TakenBlocks, BitAt, Live, RoomForName, RoomForData;
    fs', r := fs, Failed;
    match c {
      case Create(name) =>
        r := PerformCreate(fs, name, m);
      case Unlink(name) =>
        var status := fs.Unlink(name);
        r := if status == 0 then Done else Failed;
      case Write(name, data) =>
        r := PerformWrite(fs, name, data, m);
      case Read(name, size) =>
        var h := fs.Lookup(name);
        if h != null {
          var n, data := fs.Read(h, size, 0, name);
          r := Bytes(data);
        }
      case Remount =>
        var mounted := Vrfs.Mount(fs.dev, fs.inodesUsed);
        fs' := mounted;
        r := Done;
    }
  }

  /** What mkfs leaves. */
  lemma NewDisk(disk: Disk)
    requires DiskOk(disk, 1) && View(disk) == map[] && RootBlock(disk) == 0 && Taken(disk) == 0
    ensures Stands(disk, EMPTY)
  {
  }

  lemma DataBlocks(size: nat)
    ensures Capacity(size) == if size < 19 then 0 else if size < 1024 then size - 19 else 1005
  {
  }

  /** The state after one call more. */
  lemma OneCallMore(calls: seq<Call>, k: nat, capacity: nat)
    requires k < |calls|
    ensures AfterAll(calls[..k + 1], capacity) == After(AfterAll(calls[..k], capacity), calls[k], capacity)
  {
    assert calls[..k + 1][..k] == calls[..k];
    hide After;
  }

  lemma NoCalls(calls: seq<Call>, capacity: nat)
    ensures AfterAll(calls[..0], capacity) == EMPTY && calls[..|calls|] == calls
  {
  }

  /** mkfs and mount. */
  method Start(dev: BlockDevice) returns (fs: Vrfs)
    requires 3 < |dev.blocks| < WORD
    modifies dev
    ensures fs.Valid() && fs.dev == dev && fresh(fs) && |dev.blocks| == |old(dev.blocks)|
    ensures fs.inodesUsed == 1 && Stands(dev.blocks, EMPTY)
  {
    hide Stands, DiskOk, View, Taken, RootBlock, InodeAt, DecodeSuper, Vrfs.Valid, Vrfs.Mounted;
    var status := Mkfs(dev);
    NewDisk(dev.blocks);
    var mounted := Vrfs.Mount(dev, 1);
    fs := mounted;
  }

  /** After mkfs and mount, any sequence of calls that is safe gives exactly the answers of the model, and the
      disk ends up well formed, with the model's files and counts. There is room for data on all blocks from 19 on,
      up to block 1023. */
  method Drive(dev: BlockDevice, calls: seq<Call>) returns (results: seq<Result>)
    requires 3 < |dev.blocks| < WORD
    requires var cap := if |dev.blocks| < 19 then 0 else if |dev.blocks| < 1024 then |dev.blocks| - 19 else 1005;
             forall k | 0 <= k < |calls| :: Safe(AfterAll(calls[..k], cap), calls[k])
    modifies dev
    ensures |dev.blocks| == |old(dev.blocks)| && |results| == |calls|
    ensures var cap := if |dev.blocks| < 19 then 0 else if |dev.blocks| < 1024 then |dev.blocks| - 19 else 1005;
            && (forall k | 0 <= k < |calls| :: results[k] == Answer(AfterAll(calls[..k], cap), calls[k], cap))
            && Stands(dev.blocks, AfterAll(calls, cap))
  {
    hide Stands, Answer, After, AfterAll, Safe, DiskOk, View, Taken, RootBlock, Capacity, TakenBlocks, Vrfs.Valid,
      Vrfs.Mounted;
    ghost var cap := Capacity(|dev.blocks|);
    DataBlocks(|dev.blocks|);
    NoCalls(calls, cap);
    var fs := Start(dev);
    results := [];
    for k := 0 to |calls|
      invariant fs.Valid() && fs.dev == dev && fresh(fs) && |dev.blocks| == |old(dev.blocks)|
      invariant fs.inodesUsed == AfterAll(calls[..k], cap).inodes && Stands(dev.blocks, AfterAll(calls[..k], cap))
      invariant |results| == k
      invariant forall j | 0 <= j < k :: results[j] == Answer(AfterAll(calls[..j], cap), calls[j], cap)
    {
      OneCallMore(calls, k, cap);
      var r;
      fs, r := Perform(fs, calls[k], AfterAll(calls[..k], cap));
      results := results + [r];
    }
  }
}

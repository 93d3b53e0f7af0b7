/** The block list of the kernel heap (src/mm/kmalloc.c) as a sequence: what kmalloc and kfree do to it,
    and what every run of them keeps. */
module HeapBlocks {
  import opened Common

  /** A block at address addr: a 12-byte header and `size` bytes behind it. */
  datatype Block = Block(addr: nat, size: nat, free: bool) {
    function Ptr(): nat { addr + 12 }
    function End(): nat { addr + 12 + size }
  }

  // ---------------------------------------------------------------- the invariant

  /** The blocks cover [start, end) without gap or overlap. */
  ghost predicate Tiles(bs: seq<Block>, start: nat, end: nat) {
    && bs != [] && bs[0].addr == start && bs[|bs| - 1].End() == end
    && forall i | 0 <= i < |bs| - 1 :: bs[i].End() == bs[i + 1].addr
  }

  ghost predicate NoTwoFree(bs: seq<Block>) {
    forall i | 1 <= i < |bs| :: !(bs[i - 1].free && bs[i].free)
  }

  ghost predicate AllAligned(bs: seq<Block>) {
    forall i | 0 <= i < |bs| :: bs[i].addr % 4 == 0
  }

  ghost predicate WellFormed(bs: seq<Block>, start: nat, end: nat) {
    Tiles(bs, start, end) && NoTwoFree(bs) && AllAligned(bs)
  }

  ghost function Live(bs: seq<Block>): set<Block> {
    set b | b in bs && !b.free
  }

  lemma NoPair(bs: seq<Block>, i: nat)
    requires NoTwoFree(bs) && i + 1 < |bs|
    ensures !(bs[i].free && bs[i + 1].free)
  {
  }

  lemma {:induction false} TilesOrder(bs: seq<Block>, start: nat, end: nat, i: nat, j: nat)
    requires Tiles(bs, start, end) && i < j < |bs|
    ensures bs[i].End() <= bs[j].addr
  {
    if i + 1 < j {
      TilesOrder(bs, start, end, i, j - 1);
    }
  }

  lemma {:induction false} TilesRange(bs: seq<Block>, start: nat, end: nat, i: nat)
    requires Tiles(bs, start, end) && i < |bs|
    ensures start <= bs[i].addr && bs[i].End() <= end
  {
    if i > 0 { TilesOrder(bs, start, end, 0, i); }
    if i < |bs| - 1 { TilesOrder(bs, start, end, i, |bs| - 1); }
  }

  /** Live allocations are 4-byte aligned, inside the heap and disjoint. */
  lemma LiveDisjoint(bs: seq<Block>, start: nat, end: nat)
    requires WellFormed(bs, start, end)
    ensures forall b | b in Live(bs) :: b.Ptr() % 4 == 0 && start + 12 <= b.Ptr() && b.End() <= end
    ensures forall b, c | b in Live(bs) && c in Live(bs) && b != c :: b.End() <= c.addr || c.End() <= b.addr
  {
    forall b | b in Live(bs)
      ensures b.Ptr() % 4 == 0 && start + 12 <= b.Ptr() && b.End() <= end
    {
      var i :| 0 <= i < |bs| && bs[i] == b;
      TilesRange(bs, start, end, i);
    }
    forall b, c | b in Live(bs) && c in Live(bs) && b != c
      ensures b.End() <= c.addr || c.End() <= b.addr
    {
      var i :| 0 <= i < |bs| && bs[i] == b;
      var j :| 0 <= j < |bs| && bs[j] == c;
      if i < j { TilesOrder(bs, start, end, i, j); } else { TilesOrder(bs, start, end, j, i); }
    }
  }

  // ---------------------------------------------------------------- kmalloc

  /** kmalloc rounds the size up to a multiple of 4, in 32-bit arithmetic. */
  function Rounded(size: uint32): uint32 {
    if size % 4 != 0 then Wrap32(size + (4 - size % 4)) else size
  }

  /** find_free_block: the index of the first fit, or |bs|. */
  function FirstFit(bs: seq<Block>, n: nat): (k: nat)
    ensures k <= |bs| && (k < |bs| ==> bs[k].free && bs[k].size >= n)
  {
    if bs == [] || (bs[0].free && bs[0].size >= n) then 0 else 1 + FirstFit(bs[1..], n)
  }

  /** split_block and the allocation mark: a remainder of at least 16 bytes becomes a block of its own. */
  function AllocAt(bs: seq<Block>, k: nat, n: nat): (r: seq<Block>)
    requires k < |bs| && n <= bs[k].size
    ensures |bs| <= |r|
  {
    var b := bs[k];
    if b.size >= n + 12 + 16 then
      bs[..k] + [Block(b.addr, n, false), Block(b.addr + 12 + n, b.size - n - 12, true)] + bs[k + 1..]
    else
      bs[k := b.(free := false)]
  }

  lemma {:induction false} FirstFitIsFirst(bs: seq<Block>, n: nat)
    ensures forall i | 0 <= i < FirstFit(bs, n) :: !(bs[i].free && bs[i].size >= n)
  {
    if bs != [] && !(bs[0].free && bs[0].size >= n) {
      FirstFitIsFirst(bs[1..], n);
      forall i | 0 <= i < FirstFit(bs, n) ensures !(bs[i].free && bs[i].size >= n) {
        if i > 0 { assert bs[i] == bs[1..][i - 1]; }
      }
    }
  }

  lemma FirstFitUnique(bs: seq<Block>, n: nat, k: nat)
    requires k <= |bs| && (k < |bs| ==> bs[k].free && bs[k].size >= n)
    requires forall i | 0 <= i < k :: !(bs[i].free && bs[i].size >= n)
    ensures k == FirstFit(bs, n)
  {
    FirstFitIsFirst(bs, n);
  }

  /** No stretch of consecutive free blocks could have held the request when the search fails. */
  lemma SearchIsComplete(bs: seq<Block>, start: nat, end: nat, n: nat, lo: nat, hi: nat)
    requires WellFormed(bs, start, end) && FirstFit(bs, n) == |bs|
    requires lo <= hi < |bs| && forall i | lo <= i <= hi :: bs[i].free
    ensures bs[hi].End() - bs[lo].Ptr() < n
  {
    FirstFitIsFirst(bs, n);
    if lo < hi {
      NoPair(bs, lo);
      assert false;
    }
  }

  lemma AllocKeeps(bs: seq<Block>, start: nat, end: nat, n: nat)
    requires WellFormed(bs, start, end) && n % 4 == 0 && FirstFit(bs, n) < |bs|
    ensures var k := FirstFit(bs, n);
            var bs' := AllocAt(bs, k, n);
            && WellFormed(bs', start, end) && bs'[k].addr == bs[k].addr && n <= bs'[k].size < n + 28 && !bs'[k].free
            && Live(bs') == Live(bs) + {bs'[k]}
            && forall b | b in Live(bs) :: b.addr != bs'[k].addr
  {
    hide NoTwoFree, Tiles, AllAligned, AllocAt, Live;
    var k := FirstFit(bs, n);
    if bs[k].size >= n + 28 {
      AllocSplit(bs, start, end, k, n);
    } else {
      AllocWhole(bs, start, end, k, n);
    }
    forall c | c in Live(bs) ensures c.addr != bs[k].addr {
      LiveApart(bs, start, end, k, c);
    }
  }

  lemma LiveApart(bs: seq<Block>, start: nat, end: nat, k: nat, c: Block)
    requires Tiles(bs, start, end) && k < |bs| && bs[k].free && c in Live(bs)
    ensures c.addr != bs[k].addr
  {
    var i :| 0 <= i < |bs| && bs[i] == c;
    if i < k { TilesOrder(bs, start, end, i, k); } else { TilesOrder(bs, start, end, k, i); }
  }

  lemma AllocSplit(bs: seq<Block>, start: nat, end: nat, k: nat, n: nat)
    requires WellFormed(bs, start, end) && n % 4 == 0 && k < |bs| && bs[k].free && bs[k].size >= n + 28
    ensures var bs' := AllocAt(bs, k, n);
            && WellFormed(bs', start, end) && bs'[k] == Block(bs[k].addr, n, false)
            && Live(bs') == Live(bs) + {bs'[k]}
  {
    var bs', b := AllocAt(bs, k, n), bs[k];
    var a, rest := Block(b.addr, n, false), Block(b.addr + 12 + n, b.size - n - 12, true);
    assert bs' == bs[..k] + [a, rest] + bs[k + 1..];
    SplitKeeps(bs, bs', start, end, k, a, rest);
    LiveAfterAlloc(bs, bs', k);
  }

  lemma SplitKeeps(bs: seq<Block>, bs': seq<Block>, start: nat, end: nat, k: nat, a: Block, rest: Block)
    requires WellFormed(bs, start, end) && k < |bs| && bs[k].free && bs' == bs[..k] + [a, rest] + bs[k + 1..]
    requires a.addr == bs[k].addr && a.End() == rest.addr && rest.End() == bs[k].End() && !a.free && rest.addr % 4 == 0
    ensures WellFormed(bs', start, end) && bs'[k] == a && bs'[k + 1] == rest
    ensures forall i | 0 <= i < k :: bs'[i] == bs[i]
    ensures forall i | k + 1 < i < |bs'| :: bs'[i] == bs[i - 1]
  {
  }

  lemma AllocWhole(bs: seq<Block>, start: nat, end: nat, k: nat, n: nat)
    requires WellFormed(bs, start, end) && k < |bs| && bs[k].free && n <= bs[k].size < n + 28
    ensures var bs' := AllocAt(bs, k, n);
            && WellFormed(bs', start, end) && bs'[k] == bs[k].(free := false)
            && Live(bs') == Live(bs) + {bs'[k]}
  {
    LiveAfterAlloc(bs, AllocAt(bs, k, n), k);
  }

  lemma LiveAfterAlloc(bs: seq<Block>, bs': seq<Block>, k: nat)
    requires k < |bs| && k < |bs'| && bs[k].free && !bs'[k].free
    requires forall i | 0 <= i < k :: bs'[i] == bs[i]
    requires
      || (|bs'| == |bs| && forall i | k < i < |bs| :: bs'[i] == bs[i])
      || (|bs'| == |bs| + 1 && bs'[k + 1].free && forall i | k + 1 < i < |bs'| :: bs'[i] == bs[i - 1])
    ensures Live(bs') == Live(bs) + {bs'[k]}
  {
    forall b | b in Live(bs) ensures b in Live(bs') {
      var i :| 0 <= i < |bs| && bs[i] == b;
      assert b == if i < k || |bs'| == |bs| then bs'[i] else bs'[i + 1];
    }
  }

  // ---------------------------------------------------------------- kfree

  /** merge_free_blocks */
  function Merge(bs: seq<Block>): seq<Block>
    decreases |bs|
  {
    if |bs| < 2 then bs
    else if bs[0].free && bs[1].free then
      Merge(Joined(bs))
    else
      [bs[0]] + Merge(bs[1..])
  }

  function FreeAt(bs: seq<Block>, k: nat): seq<Block>
    requires k < |bs|
  {
    Merge(bs[k := bs[k].(free := true)])
  }

  /** Merging keeps the tiling and every live block, and leaves no two free neighbours. */
  lemma {:induction false} MergeKeeps(bs: seq<Block>, start: nat, end: nat)
    requires Tiles(bs, start, end) && AllAligned(bs)
    ensures WellFormed(Merge(bs), start, end) && Live(Merge(bs)) == Live(bs)
    ensures bs[0].free == Merge(bs)[0].free
    decreases |bs|
  {
    hide Live, NoTwoFree, AllAligned, Tiles;
    if |bs| < 2 {
      MergeOne(bs, start, end);
    } else if bs[0].free && bs[1].free {
      JoinKeeps(bs, start, end);
      MergeKeeps(Joined(bs), start, end);
    } else {
      TailKeeps(bs, start, end);
      MergeKeeps(bs[1..], bs[1].addr, end);
      MergeCons(bs[0], Merge(bs[1..]), start, end);
      LiveCons(bs[0], bs[1..]);
      assert bs == [bs[0]] + bs[1..];
    }
  }

  function Joined(bs: seq<Block>): seq<Block>
    requires |bs| >= 2
  {
    [Block(bs[0].addr, bs[0].size + 12 + bs[1].size, true)] + bs[2..]
  }

  lemma MergeOne(bs: seq<Block>, start: nat, end: nat)
    requires Tiles(bs, start, end) && AllAligned(bs) && |bs| < 2
    ensures WellFormed(bs, start, end) && bs != []
  {
  }

  lemma JoinKeeps(bs: seq<Block>, start: nat, end: nat)
    requires Tiles(bs, start, end) && AllAligned(bs) && |bs| >= 2 && bs[0].free && bs[1].free
    ensures Tiles(Joined(bs), start, end) && AllAligned(Joined(bs)) && Live(Joined(bs)) == Live(bs)
  {
    var c := Joined(bs);
    assert forall i | 0 < i < |c| :: c[i] == bs[i + 1];
    forall b | b in Live(bs) ensures b in Live(c) {
      var i :| 0 <= i < |bs| && bs[i] == b;
      assert c[i - 1] == b;
    }
  }

  lemma TailKeeps(bs: seq<Block>, start: nat, end: nat)
    requires Tiles(bs, start, end) && AllAligned(bs) && |bs| >= 2
    ensures Tiles(bs[1..], bs[1].addr, end) && AllAligned(bs[1..])
    ensures bs[0].End() == bs[1].addr && bs[0].addr == start && start % 4 == 0
  {
  }

  lemma MergeCons(b: Block, m: seq<Block>, start: nat, end: nat)
    requires WellFormed(m, b.End(), end) && b.addr == start && start % 4 == 0 && !(b.free && m[0].free)
    ensures WellFormed([b] + m, start, end) && Live([b] + m) == Live(m) + if b.free then {} else {b}
  {
    var c := [b] + m;
    assert forall i | 0 < i < |c| :: c[i] == m[i - 1];
    LiveCons(b, m);
  }

  lemma LiveCons(b: Block, bs: seq<Block>)
    ensures Live([b] + bs) == Live(bs) + if b.free then {} else {b}
  {
  }

  lemma FreeKeeps(bs: seq<Block>, start: nat, end: nat, k: nat)
    requires WellFormed(bs, start, end) && k < |bs| && !bs[k].free
    ensures WellFormed(FreeAt(bs, k), start, end)
    ensures Live(FreeAt(bs, k)) == Live(bs) - {bs[k]}
  {
    var c := bs[k := bs[k].(free := true)];
    MergeKeeps(c, start, end);
    assert Live(c) == Live(bs) - {bs[k]} by {
      forall i | 0 <= i < |bs| && i != k ensures bs[i] != bs[k] {
        if i < k { TilesOrder(bs, start, end, i, k); } else { TilesOrder(bs, start, end, k, i); }
      }
      forall b | b in Live(bs) - {bs[k]} ensures b in Live(c) {
        var i :| 0 <= i < |bs| && bs[i] == b;
        assert c[i] == b;
      }
    }
  }

  /** A heap without live allocations is one free block. */
  lemma AllFree(bs: seq<Block>, start: nat, end: nat)
    requires WellFormed(bs, start, end) && Live(bs) == {}
    ensures end >= start + 12 && bs == [Block(start, end - start - 12, true)]
  {
    forall i | 0 <= i < |bs| ensures bs[i].free {
      assert bs[i] in bs;
      assert bs[i] !in Live(bs);
    }
    if |bs| > 1 {
      NoPair(bs, 0);
      assert false;
    }
  }

  // ---------------------------------------------------------------- every run

  datatype Op = Malloc(size: uint32) | Free(ptr: nat)

  /** The block that kfree(ptr) frees; kfree is only called on live pointers. */
  ghost predicate CanFree(bs: seq<Block>, ptr: nat) {
    exists k :: 0 <= k < |bs| && !bs[k].free && bs[k].Ptr() == ptr
  }

  ghost function IndexOf(bs: seq<Block>, ptr: nat): (k: nat)
    requires CanFree(bs, ptr)
    ensures k < |bs| && !bs[k].free && bs[k].Ptr() == ptr
  {
    var k :| 0 <= k < |bs| && !bs[k].free && bs[k].Ptr() == ptr;
    k
  }

  ghost function Step(bs: seq<Block>, op: Op): seq<Block>
    requires op.Free? ==> CanFree(bs, op.ptr)
  {
    match op
    case Malloc(size) =>
      var k := FirstFit(bs, Rounded(size));
      if size == 0 || k == |bs| then bs else AllocAt(bs, k, Rounded(size))
    case Free(ptr) => FreeAt(bs, IndexOf(bs, ptr))
  }

  ghost predicate Legal(bs: seq<Block>, ops: seq<Op>)
    decreases |ops|
  {
    ops == [] || ((ops[0].Free? ==> CanFree(bs, ops[0].ptr)) && Legal(Step(bs, ops[0]), ops[1..]))
  }

  ghost function Run(bs: seq<Block>, ops: seq<Op>): seq<Block>
    requires Legal(bs, ops)
    decreases |ops|
  {
    if ops == [] then bs else Run(Step(bs, ops[0]), ops[1..])
  }

  lemma RoundedAligned(size: uint32)
    ensures Rounded(size) % 4 == 0
    ensures Rounded(size) >= size <==> size <= 0xFFFF_FFFC
  {
  }

  /** A served request got at least the bytes it asked for, except that a size so large that rounding it
      wraps round to 0 gets a block too small for it. */
  lemma GrantedEnough(bs: seq<Block>, start: nat, end: nat, size: uint32)
    requires WellFormed(bs, start, end) && size != 0 && FirstFit(bs, Rounded(size)) < |bs|
    ensures var k := FirstFit(bs, Rounded(size));
            AllocAt(bs, k, Rounded(size))[k].size >= size <==> size <= 0xFFFF_FFFC
  {
    RoundedAligned(size);
    AllocKeeps(bs, start, end, Rounded(size));
  }

  lemma StepKeeps(bs: seq<Block>, start: nat, end: nat, op: Op)
    requires WellFormed(bs, start, end) && (op.Free? ==> CanFree(bs, op.ptr))
    ensures WellFormed(Step(bs, op), start, end)
  {
    match op
    case Malloc(size) =>
      RoundedAligned(size);
      if FirstFit(bs, Rounded(size)) < |bs| {
        AllocKeeps(bs, start, end, Rounded(size));
      }
    case Free(ptr) => FreeKeeps(bs, start, end, IndexOf(bs, ptr));
  }

  /** What the callers hold: each pointer returned and not freed since, with the size asked for. */
  type Asked = map<nat, uint32>

  ghost function AskedAfter(bs: seq<Block>, asked: Asked, op: Op): Asked {
    match op
    case Malloc(size) =>
      var k := FirstFit(bs, Rounded(size));
      if size == 0 || k == |bs| then asked else asked[bs[k].Ptr() := size]
    case Free(ptr) => asked - {ptr}
  }

  ghost function AllAsked(bs: seq<Block>, asked: Asked, ops: seq<Op>): Asked
    requires Legal(bs, ops)
    decreases |ops|
  {
    if ops == [] then asked else AllAsked(Step(bs, ops[0]), AskedAfter(bs, asked, ops[0]), ops[1..])
  }

  /** A live block is as large as was asked for exactly if rounding up did not wrap. */
  ghost predicate Serves(b: Block, asked: Asked) {
    b.Ptr() in asked && (b.size >= asked[b.Ptr()] <==> asked[b.Ptr()] <= 0xFFFF_FFFC)
  }

  ghost predicate Has(live: set<Block>, p: nat) {
    exists b :: b in live && b.Ptr() == p
  }

  /** The live blocks are exactly those that the callers hold. */
  ghost predicate Accounts(live: set<Block>, asked: Asked) {
    && (forall b | b in live :: Serves(b, asked))
    && (forall p | p in asked :: Has(live, p))
  }

  lemma Granted(live: set<Block>, b: Block, asked: Asked, size: uint32)
    requires Accounts(live, asked) && forall c | c in live :: c.addr != b.addr
    requires b.size >= size <==> size <= 0xFFFF_FFFC
    ensures Accounts(live + {b}, asked[b.Ptr() := size])
  {
    var more, asked' := live + {b}, asked[b.Ptr() := size];
    forall c | c in more ensures Serves(c, asked') {
      if c in live { assert Serves(c, asked); }
    }
    forall p | p in asked' ensures Has(more, p) {
      if p in asked {
        var c :| c in live && c.Ptr() == p;
        assert c in more;
      } else {
        assert b in more && b.Ptr() == p;
      }
    }
  }

  lemma Returned(live: set<Block>, b: Block, asked: Asked)
    requires Accounts(live, asked) && forall c | c in live && c != b :: c.addr != b.addr
    ensures Accounts(live - {b}, asked - {b.Ptr()})
  {
    var less, asked' := live - {b}, asked - {b.Ptr()};
    forall c | c in less ensures Serves(c, asked') {
      assert Serves(c, asked);
    }
    forall p | p in asked' ensures Has(less, p) {
      var c :| c in live && c.Ptr() == p;
      assert c in less;
    }
  }

  /** kfree is called properly exactly on what the callers hold. */
  lemma CanFreeAsked(bs: seq<Block>, asked: Asked, p: nat)
    requires Accounts(Live(bs), asked)
    ensures CanFree(bs, p) <==> p in asked
  {
    if CanFree(bs, p) {
      var b := bs[IndexOf(bs, p)];
      assert b in Live(bs);
      assert Serves(b, asked);
    }
    if p in asked {
      assert Has(Live(bs), p);
      var b :| b in Live(bs) && b.Ptr() == p;
      var k :| 0 <= k < |bs| && bs[k] == b;
    }
  }

  lemma StepAccounts(bs: seq<Block>, start: nat, end: nat, op: Op, asked: Asked)
    requires WellFormed(bs, start, end) && Accounts(Live(bs), asked) && (op.Free? ==> CanFree(bs, op.ptr))
    ensures Accounts(Live(Step(bs, op)), AskedAfter(bs, asked, op))
  {
    hide WellFormed, Accounts, FreeAt, AllocAt, Rounded, Live;
    match op
    case Malloc(size) =>
      if size != 0 && FirstFit(bs, Rounded(size)) < |bs| {
        RoundedAligned(size);
        AllocKeeps(bs, start, end, Rounded(size));
        GrantedEnough(bs, start, end, size);
        Granted(Live(bs), Step(bs, op)[FirstFit(bs, Rounded(size))], asked, size);
      }
    case Free(ptr) =>
      FreeKeeps(bs, start, end, IndexOf(bs, ptr));
      LiveDisjoint(bs, start, end);
      InLive(bs, IndexOf(bs, ptr));
      Returned(Live(bs), bs[IndexOf(bs, ptr)], asked);
  }

  lemma InLive(bs: seq<Block>, k: nat)
    requires k < |bs| && !bs[k].free
    ensures bs[k] in Live(bs)
  {
  }

  /** The heap that kmalloc_init makes, of which nobody holds anything. */
  lemma FreshHeap(start: nat, end: nat)
    requires start % 4 == 0 && start + 12 <= end
    ensures var bs := [Block(start, end - start - 12, true)];
            WellFormed(bs, start, end) && Accounts(Live(bs), map[])
  {
  }

  /** Every run of kmalloc and kfree keeps the invariant. The live blocks at its end are exactly those that
      were returned and not freed since, each at least as large as was asked for exactly if that was at most
      2^32 - 4; and a run after which nothing is live, whatever the order of the frees, ends in the single free
      block that kmalloc_init made. */
  lemma {:induction false} RunKeeps(bs: seq<Block>, start: nat, end: nat, ops: seq<Op>, asked: Asked)
    requires WellFormed(bs, start, end) && Accounts(Live(bs), asked) && Legal(bs, ops)
    ensures WellFormed(Run(bs, ops), start, end) && Accounts(Live(Run(bs, ops)), AllAsked(bs, asked, ops))
    ensures AllAsked(bs, asked, ops) == map[] ==>
              end - start >= 12 && Run(bs, ops) == [Block(start, end - start - 12, true)]
    decreases |ops|
  {
    hide WellFormed, Accounts;
    if ops == [] {
      if asked == map[] { NothingHeld(bs, start, end); }
    } else {
      StepKeeps(bs, start, end, ops[0]);
      StepAccounts(bs, start, end, ops[0], asked);
      RunKeeps(Step(bs, ops[0]), start, end, ops[1..], AskedAfter(bs, asked, ops[0]));
    }
  }

  lemma NothingHeld(bs: seq<Block>, start: nat, end: nat)
    requires WellFormed(bs, start, end) && Accounts(Live(bs), map[])
    ensures end - start >= 12 && bs == [Block(start, end - start - 12, true)]
  {
    assert forall b | b in Live(bs) :: Serves(b, map[]);
    assert Live(bs) == {};
    AllFree(bs, start, end);
  }

  // ---------------------------------------------------------------- kmalloc_stats

  function Sum(bs: seq<Block>, free: bool): nat {
    if bs == [] then 0
    else Sum(bs[..|bs| - 1], free) + if bs[|bs| - 1].free == free then bs[|bs| - 1].size + 12 else 0
  }

  /** Used and free bytes, headers included, add up to the heap. */
  lemma {:induction false} SumsToHeap(bs: seq<Block>, start: nat, end: nat)
    requires Tiles(bs, start, end)
    ensures Sum(bs, true) + Sum(bs, false) == end - start
  {
    var front := bs[..|bs| - 1];
    if front != [] {
      SumsToHeap(front, start, front[|front| - 1].End());
    }
  }
}

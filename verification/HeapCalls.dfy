/** What kmalloc and kfree do to the allocations that are live, that the heap's layout is determined by these alone,
    and so that freeing a block just allocated undoes the allocation exactly. */
module HeapCalls {
  import opened Common
  import opened HeapBlocks

  /** The size that kmalloc looks for: the next multiple of 4, in 32 bits. */
  function Wanted(size: uint32): nat {
    (size + 3) / 4 * 4 % 0x1_0000_0000
  }

  lemma RoundedIsWanted(size: uint32)
    ensures Rounded(size) == Wanted(size)
    ensures size <= 0xFFFF_FFFC ==> size <= Wanted(size) < size + 4
  {
  }

  /** Block k is the lowest free one that fits. */
  ghost predicate LowestFit(bs: seq<Block>, n: nat, k: nat) {
    k < |bs| && bs[k].free && bs[k].size >= n && forall i | 0 <= i < k :: !(bs[i].free && bs[i].size >= n)
  }

  /** The block that kmalloc hands out: the lowest fit, of which at most 27 bytes more than asked for are left on
      it. */
  function HandedOut(b: Block, n: nat): Block {
    Block(b.addr, if b.size >= n + 28 then n else b.size, false)
  }

  /** kmalloc adds this block to the live ones; it does nothing for size 0 and when nothing fits. */
  lemma MallocDoes(bs: seq<Block>, start: nat, end: nat, size: uint32, k: nat)
    requires WellFormed(bs, start, end)
    ensures WellFormed(Step(bs, Malloc(size)), start, end)
    ensures size != 0 && LowestFit(bs, Wanted(size), k) ==>
              && Live(Step(bs, Malloc(size))) == Live(bs) + {HandedOut(bs[k], Wanted(size))}
              && forall b | b in Live(bs) :: b.addr != bs[k].addr
    ensures size == 0 || (forall i | 0 <= i < |bs| :: !(bs[i].free && bs[i].size >= Wanted(size))) ==>
              Step(bs, Malloc(size)) == bs
  {
    var n := Rounded(size);
    RoundedIsWanted(size);
    StepKeeps(bs, start, end, Malloc(size));
    FirstFitIsFirst(bs, n);
    if size != 0 && LowestFit(bs, n, k) {
      FirstFitUnique(bs, n, k);
      RoundedAligned(size);
      AllocKeeps(bs, start, end, n);
      assert AllocAt(bs, k, n)[k] == HandedOut(bs[k], n);
    }
  }

  /** kfree takes one block from the live ones: the one with this pointer. */
  lemma FreeDoes(bs: seq<Block>, start: nat, end: nat, b: Block)
    requires WellFormed(bs, start, end) && b in Live(bs)
    ensures CanFree(bs, b.Ptr()) && WellFormed(Step(bs, Free(b.Ptr())), start, end)
    ensures Live(Step(bs, Free(b.Ptr()))) == Live(bs) - {b}
  {
    var i :| 0 <= i < |bs| && bs[i] == b;
    assert bs[i].Ptr() == b.Ptr();
    var k := IndexOf(bs, b.Ptr());
    if i != k {
      if i < k { TilesOrder(bs, start, end, i, k); } else { TilesOrder(bs, start, end, k, i); }
      assert false;
    }
    FreeKeeps(bs, start, end, k);
  }

  // ---------------------------------------------------------------- the layout follows from the live blocks

  /** A block of the list that starts where the first one does is the first one. */
  lemma AtStart(bs: seq<Block>, start: nat, end: nat, b: Block)
    requires Tiles(bs, start, end) && b in bs && b.addr == start
    ensures b == bs[0]
  {
    var j :| 0 <= j < |bs| && bs[j] == b;
    if j > 0 { TilesOrder(bs, start, end, 0, j); }
  }

  /** Every live block but the first stands no lower than the second block. */
  lemma AfterFirst(bs: seq<Block>, start: nat, end: nat, b: Block)
    requires Tiles(bs, start, end) && |bs| >= 2 && b in bs && b != bs[0]
    ensures b.addr >= bs[1].addr
  {
    var j :| 0 <= j < |bs| && bs[j] == b;
    if j > 1 { TilesOrder(bs, start, end, 1, j); }
  }

  lemma TailFormed(bs: seq<Block>, start: nat, end: nat)
    requires WellFormed(bs, start, end) && |bs| >= 2
    ensures WellFormed(bs[1..], bs[0].End(), end) && bs[0].End() < end && bs[0].addr == start
    ensures Live(bs[1..]) == Live(bs) - {bs[0]}
  {
    TailKeeps(bs, start, end);
    assert bs == [bs[0]] + bs[1..];
    LiveCons(bs[0], bs[1..]);
    TilesOrder(bs, start, end, 0, |bs| - 1);
    assert bs[0] !in bs[1..] by {
      if j :| 0 <= j < |bs[1..]| && bs[1..][j] == bs[0] { TilesOrder(bs, start, end, 0, j + 1); }
    }
  }

  /** The first blocks of two layouts with the same live blocks are the same. */
  lemma SameFirst(a: seq<Block>, b: seq<Block>, start: nat, end: nat)
    requires WellFormed(a, start, end) && WellFormed(b, start, end) && Live(a) == Live(b)
    ensures a[0] == b[0]
  {
    if !a[0].free {
      assert a[0] in Live(b);
      AtStart(b, start, end, a[0]);
    } else if !b[0].free {
      assert b[0] in Live(a);
      AtStart(a, start, end, b[0]);
    } else if Live(a) == {} {
      AllFree(a, start, end);
      AllFree(b, start, end);
    } else {
      SecondLive(a, start, end);
      SecondLive(b, start, end);
      AfterFirst(a, start, end, b[1]);
      AfterFirst(b, start, end, a[1]);
    }
  }

  lemma SecondLive(bs: seq<Block>, start: nat, end: nat)
    requires WellFormed(bs, start, end) && bs[0].free && Live(bs) != {}
    ensures |bs| >= 2 && bs[1] in Live(bs) && bs[0].End() == bs[1].addr && bs[0].addr == start
  {
    var b :| b in Live(bs);
    var j :| 0 <= j < |bs| && bs[j] == b;
    assert !(bs[1 - 1].free && bs[1].free);
  }

  /** The layout of the heap is determined by the live blocks: between them everything is merged. */
  lemma {:induction false} SameLive(a: seq<Block>, b: seq<Block>, start: nat, end: nat)
    requires WellFormed(a, start, end) && WellFormed(b, start, end) && Live(a) == Live(b)
    ensures a == b
    decreases |a|
  {
    SameFirst(a, b, start, end);
    hide Live, NoTwoFree, AllAligned;
    if |a| >= 2 { TailFormed(a, start, end); }
    if |b| >= 2 { TailFormed(b, start, end); }
    if |a| >= 2 {
      SameLive(a[1..], b[1..], a[0].End(), end);
      assert a == [a[0]] + a[1..] && b == [b[0]] + b[1..];
    }
  }

  /** Freeing what was just allocated puts the heap back exactly as it was. */
  lemma FreeUndoesMalloc(bs: seq<Block>, start: nat, end: nat, size: uint32, k: nat)
    requires WellFormed(bs, start, end) && size != 0 && LowestFit(bs, Wanted(size), k)
    ensures var bs' := Step(bs, Malloc(size));
            CanFree(bs', bs[k].Ptr()) && Step(bs', Free(bs[k].Ptr())) == bs
  {
    var b := HandedOut(bs[k], Wanted(size));
    MallocDoes(bs, start, end, size, k);
    var bs' := Step(bs, Malloc(size));
    hide WellFormed, Live, Step;
    FreeDoes(bs', start, end, b);
    assert Live(bs') - {b} == Live(bs);
    SameLive(Step(bs', Free(b.Ptr())), bs, start, end);
  }

  /** Two frees in either order give the same heap. */
  lemma FreesCommute(bs: seq<Block>, start: nat, end: nat, b: Block, c: Block)
    requires WellFormed(bs, start, end) && b in Live(bs) && c in Live(bs) && b != c
    ensures CanFree(bs, b.Ptr()) && CanFree(Step(bs, Free(b.Ptr())), c.Ptr())
    ensures CanFree(bs, c.Ptr()) && CanFree(Step(bs, Free(c.Ptr())), b.Ptr())
    ensures Step(Step(bs, Free(b.Ptr())), Free(c.Ptr())) == Step(Step(bs, Free(c.Ptr())), Free(b.Ptr()))
  {
    hide WellFormed, Live, Step, CanFree;
    FreeDoes(bs, start, end, b);
    FreeDoes(bs, start, end, c);
    var one, other := Step(bs, Free(b.Ptr())), Step(bs, Free(c.Ptr()));
    FreeDoes(one, start, end, c);
    FreeDoes(other, start, end, b);
    assert Live(bs) - {b} - {c} == Live(bs) - {c} - {b};
    SameLive(Step(one, Free(c.Ptr())), Step(other, Free(b.Ptr())), start, end);
  }

  // ---------------------------------------------------------------- kmalloc_stats

  /** The bytes of a list of live blocks with their headers. */
  lemma {:induction false} SumJoin(a: seq<Block>, b: seq<Block>, free: bool)
    ensures Sum(a + b, free) == Sum(a, free) + Sum(b, free)
    decreases |b|
  {
    if b == [] {
      assert a + b == a;
    } else {
      assert (a + b)[..|a + b| - 1] == a + b[..|b| - 1];
      SumJoin(a, b[..|b| - 1], free);
    }
  }

  lemma SumOne(b: Block, free: bool)
    ensures Sum([b], free) == if b.free == free then b.size + 12 else 0
  {
    assert [b][..0] == [];
  }

  lemma SumThree(a: seq<Block>, b: seq<Block>, c: seq<Block>, free: bool)
    ensures Sum(a + b + c, free) == Sum(a, free) + Sum(b, free) + Sum(c, free)
  {
    SumJoin(a + b, c, free);
    SumJoin(a, b, free);
  }

  /** Replacing one block by others changes the sum by theirs. */
  lemma SumReplaced(bs: seq<Block>, k: nat, mid: seq<Block>, free: bool)
    requires k < |bs|
    ensures Sum(bs[..k] + mid + bs[k + 1..], free)
            == Sum(bs, free) + Sum(mid, free) - if bs[k].free == free then bs[k].size + 12 else 0
  {
    assert bs == bs[..k] + [bs[k]] + bs[k + 1..];
    SumOne(bs[k], free);
    hide Sum;
    SumThree(bs[..k], [bs[k]], bs[k + 1..], free);
    SumThree(bs[..k], mid, bs[k + 1..], free);
  }

  lemma UsedAfterAlloc(bs: seq<Block>, k: nat, n: nat)
    requires k < |bs| && bs[k].size >= n && bs[k].free
    ensures Sum(AllocAt(bs, k, n), false) == Sum(bs, false) + 12 + HandedOut(bs[k], n).size
  {
    hide Sum;
    var a := HandedOut(bs[k], n);
    SumOne(a, false);
    if bs[k].size >= n + 28 {
      var rest := Block(bs[k].addr + 12 + n, bs[k].size - n - 12, true);
      SumOne(rest, false);
      SumJoin([a], [rest], false);
      assert [a] + [rest] == [a, rest];
      SumReplaced(bs, k, [a, rest], false);
    } else {
      assert AllocAt(bs, k, n) == bs[..k] + [a] + bs[k + 1..];
      SumReplaced(bs, k, [a], false);
    }
  }

  /** Each allocation adds its own bytes, with the header, to those in use. */
  lemma UsedGrows(bs: seq<Block>, size: uint32, k: nat)
    requires size != 0 && LowestFit(bs, Wanted(size), k)
    ensures Sum(Step(bs, Malloc(size)), false) == Sum(bs, false) + 12 + HandedOut(bs[k], Wanted(size)).size
  {
    RoundedIsWanted(size);
    FirstFitUnique(bs, Wanted(size), k);
    UsedAfterAlloc(bs, k, Wanted(size));
    hide Sum, AllocAt, LowestFit, FirstFit, Rounded;
  }

  /** Nothing is used exactly while nothing is live. */
  lemma {:induction false} UsedIsLive(bs: seq<Block>)
    ensures Sum(bs, false) == 0 <==> Live(bs) == {}
  {
    if bs != [] {
      var n := |bs| - 1;
      UsedIsLive(bs[..n]);
      assert bs == bs[..n] + [bs[n]];
      assert Live(bs) == Live(bs[..n]) + if bs[n].free then {} else {bs[n]};
    } else {
      assert Live(bs) == {};
    }
  }
}

/** The partition of a page region into free and allocated blocks, in address order: what the
    allocator of addrman.c may do to it, and what follows from it. */
module PageBlocks {

  datatype Block = Block(offset: nat, size: nat, free: bool) {
    function End(): nat {
      offset + size
    }
  }

  // The blocks lie one after the other over pages 0 to pages, none of them empty unless the
  // whole region is.
  ghost predicate Tiled(bs: seq<Block>, pages: nat) {
    && |bs| > 0 && bs[0].offset == 0 && bs[|bs| - 1].End() == pages
    && (forall i | 0 <= i < |bs| :: bs[i].size > 0 || (pages == 0 && |bs| == 1))
    && (forall i | 0 <= i < |bs| - 1 :: bs[i + 1].offset == bs[i].End())
  }

  // No two neighbours are both free.
  ghost predicate Merged(bs: seq<Block>) {
    forall i | 0 <= i < |bs| - 1 :: !(bs[i].free && bs[i + 1].free)
  }

  // The allocations: offset and size of each block in use.
  ghost function Live(bs: seq<Block>): set<(nat, nat)> {
    set b | b in bs && !b.free :: (b.offset, b.size)
  }

  // ----- The operations -----

  function Carved(bs: seq<Block>, i: nat, n: nat): seq<Block>
    requires i < |bs| && n <= bs[i].size
  {
    var b := bs[i];
    if n == b.size then bs[i := b.(free := false)]
    else bs[..i] + [Block(b.offset, n, false), Block(b.offset + n, b.size - n, true)] + bs[i + 1..]
  }

  // Blocks i and i+1 become one.
  function Join(bs: seq<Block>, i: nat): (r: seq<Block>)
    requires i + 1 < |bs|
    ensures |r| == |bs| - 1
  {
    bs[..i] + [Block(bs[i].offset, bs[i].size + bs[i + 1].size, bs[i].free)] + bs[i + 2..]
  }

  // Merging around block i, to the left first, until nothing next to it is free.
  function Coalesce(bs: seq<Block>, i: nat): seq<Block>
    requires i < |bs|
    decreases |bs|
  {
    if i > 0 && bs[i - 1].free then Coalesce(Join(bs, i - 1), i - 1)
    else if i + 1 < |bs| && bs[i + 1].free then Coalesce(Join(bs, i), i)
    else bs
  }

  lemma CoalesceStep(bs: seq<Block>, i: nat)
    requires i < |bs|
    ensures i > 0 && bs[i - 1].free ==> Coalesce(bs, i) == Coalesce(Join(bs, i - 1), i - 1)
    ensures !(i > 0 && bs[i - 1].free) && i + 1 < |bs| && bs[i + 1].free ==> Coalesce(bs, i) == Coalesce(Join(bs, i), i)
    ensures !(i > 0 && bs[i - 1].free) && !(i + 1 < |bs| && bs[i + 1].free) ==> Coalesce(bs, i) == bs
  {
  }

  function Freed(bs: seq<Block>, i: nat): seq<Block>
    requires i < |bs|
  {
    Coalesce(bs[i := bs[i].(free := true)], i)
  }

  // Block i is a smallest one among the free blocks of n pages or more.
  ghost predicate BestFit(bs: seq<Block>, n: nat, i: nat) {
    && i < |bs| && bs[i].free && bs[i].size >= n
    && forall j | 0 <= j < |bs| && bs[j].free && bs[j].size >= n :: bs[i].size <= bs[j].size
  }

  ghost predicate NoFit(bs: seq<Block>, n: nat) {
    forall j | 0 <= j < |bs| && bs[j].free :: bs[j].size < n
  }

  // ----- What the operations keep -----

  lemma {:induction false} AddressOrder(bs: seq<Block>, pages: nat, i: nat, j: nat)
    requires Tiled(bs, pages) && i < j < |bs|
    ensures bs[i].End() <= bs[j].offset && bs[i].offset < bs[j].offset
  {
    if i + 1 < j {
      AddressOrder(bs, pages, i, j - 1);
    }
  }

  lemma CarvedElements(bs: seq<Block>, i: nat, n: nat)
    requires i < |bs| && n < bs[i].size
    ensures var s := Carved(bs, i, n);
            && |s| == |bs| + 1
            && (forall k | 0 <= k < i :: s[k] == bs[k])
            && s[i] == Block(bs[i].offset, n, false) && s[i + 1] == Block(bs[i].offset + n, bs[i].size - n, true)
            && (forall k | i + 1 < k < |s| :: s[k] == bs[k - 1])
  {
  }

  // Block k and the one after it touch, hold pages and are not both free.
  ghost predicate PairSound(s: seq<Block>, k: nat)
    requires k + 1 < |s|
  {
    && s[k + 1].offset == s[k].End() && !(s[k].free && s[k + 1].free)
    && s[k].size > 0 && s[k + 1].size > 0
  }

  lemma PairsSound(s: seq<Block>, pages: nat)
    requires |s| > 1 && s[0].offset == 0 && s[|s| - 1].End() == pages
    requires forall k | 0 <= k < |s| - 1 :: PairSound(s, k)
    ensures Tiled(s, pages) && Merged(s)
  {
    forall k | 0 <= k < |s|
      ensures s[k].size > 0
    {
      assert PairSound(s, if k > 0 then k - 1 else 0);
    }
    forall k | 0 <= k < |s| - 1
      ensures s[k + 1].offset == s[k].End() && !(s[k].free && s[k + 1].free)
    {
      assert PairSound(s, k);
    }
  }

  // Neighbours after the split
  lemma CarvedPair(bs: seq<Block>, pages: nat, i: nat, n: nat, k: nat)
    requires Tiled(bs, pages) && Merged(bs) && i < |bs| && bs[i].free && 0 < n < bs[i].size && k < |bs|
    ensures var s := Carved(bs, i, n);
            |s| == |bs| + 1 && PairSound(s, k)
  {
    CarvedElements(bs, i, n);
    hide Carved;
    var s := Carved(bs, i, n);
    if k + 1 < i {
      assert s[k] == bs[k] && s[k + 1] == bs[k + 1];
    } else if k + 1 == i {
      assert s[k] == bs[k] && bs[i].offset == bs[k].End();
    } else if k == i + 1 {
      assert s[k + 1] == bs[k] && bs[k].offset == bs[i].End();
    } else if k > i + 1 {
      assert s[k] == bs[k - 1] && s[k + 1] == bs[k];
    }
  }

  lemma CarvedEnds(bs: seq<Block>, pages: nat, i: nat, n: nat)
    requires Tiled(bs, pages) && i < |bs| && 0 < n < bs[i].size
    ensures var s := Carved(bs, i, n); |s| == |bs| + 1 && s[0].offset == 0 && s[|s| - 1].End() == pages
  {
    CarvedElements(bs, i, n);
    hide Carved;
    var s := Carved(bs, i, n);
    assert i + 1 < |bs| ==> s[|bs|] == bs[|bs| - 1];
  }

  lemma {:induction false} CarvedTiles(bs: seq<Block>, pages: nat, i: nat, n: nat)
    requires Tiled(bs, pages) && Merged(bs) && i < |bs| && bs[i].free && 0 < n <= bs[i].size
    ensures Tiled(Carved(bs, i, n), pages) && Merged(Carved(bs, i, n))
  {
    hide Carved, Tiled, Merged, PairSound;
    if n < bs[i].size {
      CarvedEnds(bs, pages, i, n);
      var s := Carved(bs, i, n);
      forall k | 0 <= k < |s| - 1
        ensures PairSound(s, k)
      {
        CarvedPair(bs, pages, i, n, k);
      }
      PairsSound(s, pages);
    } else {
      CarvedWhole(bs, pages, i);
    }
  }

  lemma CarvedWhole(bs: seq<Block>, pages: nat, i: nat)
    requires Tiled(bs, pages) && Merged(bs) && i < |bs| && bs[i].free
    ensures Carved(bs, i, bs[i].size) == bs[i := bs[i].(free := false)]
    ensures Tiled(bs[i := bs[i].(free := false)], pages) && Merged(bs[i := bs[i].(free := false)])
  {
    UsedTiles(bs, pages, i);
    hide Tiled;
  }

  // Asking for no page at all breaks the tiling of every region that has a page: two blocks then
  // start at the same page.
  lemma {:induction false} ZeroPagesBreak(bs: seq<Block>, pages: nat, i: nat)
    requires Tiled(bs, pages) && i < |bs| && bs[i].free && pages > 0
    ensures |Carved(bs, i, 0)| == |bs| + 1 && Carved(bs, i, 0)[i].offset == Carved(bs, i, 0)[i + 1].offset
    ensures !Tiled(Carved(bs, i, 0), pages)
  {
    CarvedElements(bs, i, 0);
    hide Carved;
  }

  lemma {:induction false} CarvedSound(bs: seq<Block>, pages: nat, i: nat, n: nat)
    requires Tiled(bs, pages) && Merged(bs) && i < |bs| && bs[i].free && n <= bs[i].size
    ensures Tiled(Carved(bs, i, n), pages) && Merged(Carved(bs, i, n)) <==> n > 0 || pages == 0
  {
    hide Tiled;
    if n > 0 {
      CarvedTiles(bs, pages, i, n);
    } else if pages > 0 {
      ZeroPagesBreak(bs, pages, i);
    } else {
      NoPages(bs);
      UsedTiles(bs, pages, i);
    }
  }

  lemma NoPages(bs: seq<Block>)
    requires Tiled(bs, 0)
    ensures |bs| == 1 && bs[0].size == 0
  {
  }

  lemma {:induction false} UsedTiles(bs: seq<Block>, pages: nat, i: nat)
    requires Tiled(bs, pages) && i < |bs|
    ensures Tiled(bs[i := bs[i].(free := false)], pages)
  {
  }

  lemma {:induction false} FreeTiles(bs: seq<Block>, pages: nat, i: nat)
    requires Tiled(bs, pages) && i < |bs|
    ensures Tiled(bs[i := bs[i].(free := true)], pages)
  {
  }

  lemma {:induction false} CarvedLive(bs: seq<Block>, i: nat, n: nat)
    requires i < |bs| && bs[i].free && 0 < n <= bs[i].size
    ensures Live(Carved(bs, i, n)) == Live(bs) + {(bs[i].offset, n)}
  {
    var s, b := Carved(bs, i, n), bs[i];
    var mid := if n == b.size then [b.(free := false)] else [Block(b.offset, n, false), Block(b.offset + n, b.size - n, true)];
    assert s == bs[..i] + mid + bs[i + 1..];
    LiveSum(bs[..i], mid, bs[i + 1..]);
    LiveAt(bs, i);
    assert mid[0] in mid;
  }

  lemma LiveSum(a: seq<Block>, b: seq<Block>, c: seq<Block>)
    ensures Live(a + b + c) == Live(a) + Live(b) + Live(c)
  {
    assert forall x :: x in a + b + c <==> x in a || x in b || x in c;
  }

  lemma LiveAt(bs: seq<Block>, i: nat)
    requires i < |bs|
    ensures Live(bs) == Live(bs[..i]) + Live([bs[i]]) + Live(bs[i + 1..])
  {
    assert bs == bs[..i] + [bs[i]] + bs[i + 1..];
    LiveSum(bs[..i], [bs[i]], bs[i + 1..]);
  }

  lemma JoinAt(bs: seq<Block>, i: nat, k: nat)
    requires i + 1 < |bs| && k < |Join(bs, i)|
    ensures Join(bs, i)[k] == if k < i then bs[k]
                              else if k == i then Block(bs[i].offset, bs[i].size + bs[i + 1].size, bs[i].free) else bs[k + 1]
  {
  }

  lemma {:induction false} JoinTiles(bs: seq<Block>, pages: nat, i: nat)
    requires Tiled(bs, pages) && i + 1 < |bs|
    ensures Tiled(Join(bs, i), pages)
  {
    var s := Join(bs, i);
    forall k | 0 <= k < |s|
      ensures s[k] == if k < i then bs[k]
                      else if k == i then Block(bs[i].offset, bs[i].size + bs[i + 1].size, bs[i].free) else bs[k + 1]
    {
      JoinAt(bs, i, k);
    }
    hide Join;
  }

  lemma {:induction false} JoinLive(bs: seq<Block>, i: nat)
    requires i + 1 < |bs| && bs[i].free && bs[i + 1].free
    ensures Live(Join(bs, i)) == Live(bs)
  {
    var mid := [Block(bs[i].offset, bs[i].size + bs[i + 1].size, true)];
    assert bs == bs[..i] + bs[i..i + 2] + bs[i + 2..];
    LiveSum(bs[..i], bs[i..i + 2], bs[i + 2..]);
    LiveSum(bs[..i], mid, bs[i + 2..]);
  }

  // Free neighbours only next to block i.
  ghost predicate MergedBut(bs: seq<Block>, i: nat) {
    forall k | 0 <= k < |bs| - 1 && k != i && k + 1 != i :: !(bs[k].free && bs[k + 1].free)
  }

  lemma JoinNeighbours(bs: seq<Block>, i: nat, k: nat)
    requires i + 1 < |bs| && bs[i].free && bs[i + 1].free && (k == i || k == i + 1) && MergedBut(bs, k)
    ensures Join(bs, i)[i].free && MergedBut(Join(bs, i), i)
  {
    var s := Join(bs, i);
    assert forall k | 0 <= k < |s| && k != i :: s[k] == if k < i then bs[k] else bs[k + 1];
  }

  lemma {:induction false} CoalesceKeeps(bs: seq<Block>, pages: nat, i: nat)
    requires Tiled(bs, pages) && i < |bs| && bs[i].free && MergedBut(bs, i)
    ensures Tiled(Coalesce(bs, i), pages) && Merged(Coalesce(bs, i)) && Live(Coalesce(bs, i)) == Live(bs)
    decreases |bs|
  {
    hide Join, Live, Tiled;
    if i > 0 && bs[i - 1].free {
      JoinTiles(bs, pages, i - 1);
      JoinNeighbours(bs, i - 1, i);
      JoinLive(bs, i - 1);
      CoalesceKeeps(Join(bs, i - 1), pages, i - 1);
    } else if i + 1 < |bs| && bs[i + 1].free {
      JoinTiles(bs, pages, i);
      JoinNeighbours(bs, i, i);
      JoinLive(bs, i);
      CoalesceKeeps(Join(bs, i), pages, i);
    }
  }

  lemma {:induction false} FreedKeeps(bs: seq<Block>, pages: nat, i: nat)
    requires Tiled(bs, pages) && Merged(bs) && i < |bs|
    ensures Tiled(Freed(bs, i), pages) && Merged(Freed(bs, i))
    ensures !bs[i].free ==> Live(Freed(bs, i)) == Live(bs) - {(bs[i].offset, bs[i].size)}
  {
    var f := bs[i := bs[i].(free := true)];
    FreedMergedBut(bs, i);
    hide Coalesce, Merged, MergedBut, Live;
    FreeTiles(bs, pages, i);
    CoalesceKeeps(f, pages, i);
    if !bs[i].free { FreedLive(bs, pages, i); }
  }

  // Freeing a block that is free already changes no block, and there is nothing to merge.
  lemma FreedAgain(bs: seq<Block>, i: nat)
    requires Merged(bs) && i < |bs| && bs[i].free
    ensures bs[i := bs[i].(free := true)] == bs && Freed(bs, i) == bs && Alone(bs, i)
  {
  }

  // The blocks next to block i are in use.
  ghost predicate Alone(bs: seq<Block>, i: nat)
    requires i < |bs|
  {
    (i > 0 ==> !bs[i - 1].free) && (i + 1 < |bs| ==> !bs[i + 1].free)
  }

  lemma FreedMergedBut(bs: seq<Block>, i: nat)
    requires Merged(bs) && i < |bs|
    ensures MergedBut(bs[i := bs[i].(free := true)], i)
  {
  }

  lemma {:induction false} FreedLive(bs: seq<Block>, pages: nat, i: nat)
    requires Tiled(bs, pages) && i < |bs| && !bs[i].free
    ensures Live(bs[i := bs[i].(free := true)]) == Live(bs) - {(bs[i].offset, bs[i].size)}
  {
    hide Tiled;
    var f := bs[i := bs[i].(free := true)];
    LiveAt(bs, i);
    LiveAt(f, i);
    assert f[..i] == bs[..i] && f[i + 1..] == bs[i + 1..];
    assert (bs[i].offset, bs[i].size) !in Live(bs[..i]) + Live(bs[i + 1..]) by { OffsetsDiffer(bs, pages, i); }
    assert [bs[i]][0] in [bs[i]];
  }

  lemma {:induction false} OffsetsDiffer(bs: seq<Block>, pages: nat, i: nat)
    requires Tiled(bs, pages) && i < |bs|
    ensures forall b | b in bs[..i] || b in bs[i + 1..] :: b.offset != bs[i].offset
  {
    forall b | b in bs[..i] || b in bs[i + 1..]
      ensures b.offset != bs[i].offset
    {
      if b in bs[..i] {
        var j :| 0 <= j < i && bs[j] == b;
        AddressOrder(bs, pages, j, i);
      } else {
        var j :| 0 <= j < |bs| - i - 1 && bs[i + 1..][j] == b;
        AddressOrder(bs, pages, i, i + 1 + j);
      }
    }
  }

  // ----- The allocations determine the whole partition -----

  lemma {:induction false} SameLiveSamePartition(a: seq<Block>, b: seq<Block>, pages: nat)
    requires Tiled(a, pages) && Merged(a) && Tiled(b, pages) && Merged(b) && Live(a) == Live(b)
    ensures a == b
  {
    var k := Agreement(a, b, pages);
    assert k == |a| == |b|;
  }

  // The longest common beginning of the two partitions.
  lemma {:induction false} Agreement(a: seq<Block>, b: seq<Block>, pages: nat) returns (k: nat)
    requires Tiled(a, pages) && Merged(a) && Tiled(b, pages) && Merged(b) && Live(a) == Live(b)
    ensures k == |a| == |b| && a[..k] == b[..k]
  {
    k := 0;
    while k < |a| && k < |b|
      invariant k <= |a| && k <= |b| && a[..k] == b[..k]
    {
      SameBlock(a, b, pages, k);
      k := k + 1;
    }
    if k < |a| && k > 0 { AddressOrder(a, pages, k - 1, |a| - 1); }
    if k < |b| && k > 0 { AddressOrder(b, pages, k - 1, |b| - 1); }
  }

  lemma {:induction false} SameBlock(a: seq<Block>, b: seq<Block>, pages: nat, k: nat)
    requires Tiled(a, pages) && Merged(a) && Tiled(b, pages) && Merged(b) && Live(a) == Live(b)
    requires k < |a| && k < |b| && a[..k] == b[..k]
    ensures a[k] == b[k]
  {
    assert a[k].offset == b[k].offset by {
      if k > 0 { assert a[..k][k - 1] == b[..k][k - 1]; }
    }
    if !a[k].free {
      LiveThere(a, b, pages, k);
    } else if !b[k].free {
      LiveThere(b, a, pages, k);
    } else {
      FreeEnds(a, b, pages, k);
      FreeEnds(b, a, pages, k);
    }
  }

  // A block in use at the same offset is the same block.
  lemma {:induction false} LiveThere(a: seq<Block>, b: seq<Block>, pages: nat, k: nat)
    requires Tiled(a, pages) && Tiled(b, pages) && Live(a) == Live(b)
    requires k < |a| && k < |b| && a[k].offset == b[k].offset && !a[k].free
    ensures a[k] == b[k]
  {
    assert (a[k].offset, a[k].size) in Live(a);
    var x :| x in b && !x.free && (x.offset, x.size) == (a[k].offset, a[k].size);
    var j :| 0 <= j < |b| && b[j] == x;
    if j < k { AddressOrder(b, pages, j, k); }
    if k < j { AddressOrder(b, pages, k, j); }
  }

  // A free block cannot reach past a free block at the same offset.
  lemma {:induction false} FreeEnds(a: seq<Block>, b: seq<Block>, pages: nat, k: nat)
    requires Tiled(a, pages) && Merged(a) && Tiled(b, pages) && Live(a) == Live(b)
    requires k < |a| && k < |b| && a[k].offset == b[k].offset && a[k].free && b[k].free
    ensures a[k].size >= b[k].size
  {
    if k + 1 < |a| {
      var n := a[k + 1];
      assert !n.free;
      assert (n.offset, n.size) in Live(a);
      var x :| x in b && !x.free && (x.offset, x.size) == (n.offset, n.size);
      var j :| 0 <= j < |b| && b[j] == x;
      if j < k { AddressOrder(b, pages, j, k); }
      if k < j { AddressOrder(b, pages, k, j); }
    } else if k + 1 < |b| {
      AddressOrder(b, pages, k, |b| - 1);
    }
  }

  // Freeing what was just allocated gives the partition back.
  lemma {:induction false} AllocFree(bs: seq<Block>, pages: nat, i: nat, n: nat)
    requires Tiled(bs, pages) && Merged(bs) && i < |bs| && bs[i].free && 0 < n <= bs[i].size
    ensures i < |Carved(bs, i, n)| && Freed(Carved(bs, i, n), i) == bs
  {
    var s := Carved(bs, i, n);
    CarvedTiles(bs, pages, i, n);
    CarvedLive(bs, i, n);
    FreedKeeps(s, pages, i);
    assert (bs[i].offset, n) !in Live(bs) by {
      if (bs[i].offset, n) in Live(bs) {
        var x :| x in bs && !x.free && (x.offset, x.size) == (bs[i].offset, n);
        var j :| 0 <= j < |bs| && bs[j] == x;
        if j < i { AddressOrder(bs, pages, j, i); }
        if i < j { AddressOrder(bs, pages, i, j); }
      }
    }
    SameLiveSamePartition(Freed(s, i), bs, pages);
  }

  // ----- Free runs of pages -----

  ghost predicate PageFree(bs: seq<Block>, p: int) {
    exists i | 0 <= i < |bs| :: bs[i].free && bs[i].offset <= p < bs[i].End()
  }

  ghost predicate FreeRun(bs: seq<Block>, a: nat, n: nat) {
    forall p | a <= p < a + n :: PageFree(bs, p)
  }

  // A run of free pages always lies inside one free block.
  lemma {:induction false} RunInBlock(bs: seq<Block>, pages: nat, a: nat, n: nat) returns (i: nat)
    requires Tiled(bs, pages) && Merged(bs) && n > 0 && FreeRun(bs, a, n)
    ensures i < |bs| && bs[i].free && bs[i].offset <= a && a + n <= bs[i].End()
  {
    assert PageFree(bs, a);
    i :| 0 <= i < |bs| && bs[i].free && bs[i].offset <= a < bs[i].End();
    if a + n > bs[i].End() {
      assert PageFree(bs, bs[i].End());
      var j :| 0 <= j < |bs| && bs[j].free && bs[j].offset <= bs[i].End() < bs[j].End();
      if j < i { AddressOrder(bs, pages, j, i); }
      if i + 1 < j { AddressOrder(bs, pages, i + 1, j); }
    }
  }

  // A run of n free pages exists exactly when some free block has n pages or more.
  lemma {:induction false} RunFits(bs: seq<Block>, pages: nat, n: nat)
    requires Tiled(bs, pages) && Merged(bs) && n > 0
    ensures (exists a: nat :: FreeRun(bs, a, n)) <==> (exists i | 0 <= i < |bs| :: bs[i].free && bs[i].size >= n)
  {
    if a: nat :| FreeRun(bs, a, n) {
      var i := RunInBlock(bs, pages, a, n);
    }
    if i :| 0 <= i < |bs| && bs[i].free && bs[i].size >= n {
      assert FreeRun(bs, bs[i].offset, n);
    }
  }

  // ----- Runs of the allocator -----

  datatype Op = Alloc(pages: nat) | Free(offset: nat)

  ghost predicate Step(bs: seq<Block>, op: Op, bs': seq<Block>) {
    match op
    case Alloc(n) => n > 0 && (if NoFit(bs, n) then bs' == bs else exists i: nat | BestFit(bs, n, i) :: bs' == Carved(bs, i, n))
    case Free(o) => exists i: nat | i < |bs| :: bs[i].offset == o && !bs[i].free && bs' == Freed(bs, i)
  }

  ghost predicate Run(pages: nat, ops: seq<Op>, states: seq<seq<Block>>) {
    && |states| == |ops| + 1 && states[0] == [Block(0, pages, true)]
    && forall k | 0 <= k < |ops| :: Step(states[k], ops[k], states[k + 1])
  }

  lemma {:induction false} StepKeeps(bs: seq<Block>, pages: nat, op: Op, bs': seq<Block>)
    requires Tiled(bs, pages) && Merged(bs) && Step(bs, op, bs')
    ensures Tiled(bs', pages) && Merged(bs')
  {
    match op {
      case Alloc(n) =>
        if !NoFit(bs, n) {
          var i: nat :| BestFit(bs, n, i) && bs' == Carved(bs, i, n);
          CarvedTiles(bs, pages, i, n);
        }
      case Free(o) =>
        var i: nat :| i < |bs| && bs[i].offset == o && !bs[i].free && bs' == Freed(bs, i);
        FreedKeeps(bs, pages, i);
    }
  }

  lemma {:induction false} RunKeeps(pages: nat, ops: seq<Op>, states: seq<seq<Block>>, k: nat)
    requires Run(pages, ops, states) && k < |states|
    ensures Tiled(states[k], pages) && Merged(states[k])
  {
    if k > 0 {
      RunKeeps(pages, ops, states, k - 1);
      StepKeeps(states[k - 1], pages, ops[k - 1], states[k]);
    }
  }

  // Two histories that leave the same allocations leave the same partition.
  lemma {:induction false} HistoryForgotten(pages: nat, ops1: seq<Op>, states1: seq<seq<Block>>, ops2: seq<Op>, states2: seq<seq<Block>>)
    requires Run(pages, ops1, states1) && Run(pages, ops2, states2)
    requires Live(states1[|ops1|]) == Live(states2[|ops2|])
    ensures states1[|ops1|] == states2[|ops2|]
  {
    RunKeeps(pages, ops1, states1, |ops1|);
    RunKeeps(pages, ops2, states2, |ops2|);
    SameLiveSamePartition(states1[|ops1|], states2[|ops2|], pages);
  }

  // At any time in a run, allocations do not overlap and lie within the region.
  lemma {:induction false} LiveDisjoint(pages: nat, ops: seq<Op>, states: seq<seq<Block>>, k: nat, a: (nat, nat), b: (nat, nat))
    requires Run(pages, ops, states) && k < |states|
    requires a in Live(states[k]) && b in Live(states[k]) && a != b
    ensures a.0 + a.1 <= b.0 || b.0 + b.1 <= a.0
    ensures a.0 + a.1 <= pages
  {
    RunKeeps(pages, ops, states, k);
    var bs := states[k];
    var x :| x in bs && !x.free && (x.offset, x.size) == a;
    var y :| y in bs && !y.free && (y.offset, y.size) == b;
    var i :| 0 <= i < |bs| && bs[i] == x;
    var j :| 0 <= j < |bs| && bs[j] == y;
    if i < j { AddressOrder(bs, pages, i, j); } else { AddressOrder(bs, pages, j, i); }
    if i < |bs| - 1 { AddressOrder(bs, pages, i, |bs| - 1); }
  }
}

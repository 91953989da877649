/** The blocks of the c4alloc heap in address order: power-of-two sizes, chunks of 16 KiB that
    blocks never cross, and what splitting and coalescing do to them. */
module HeapBlocks {
  import opened Common

  const CHUNK := 0x4000
  const MIN_BUCKET := 5
  const MAX_BUCKET := 14

  datatype HBlock = HBlock(addr: nat, bucket: nat, free: bool) {
    function End(): nat {
      addr + Pow2(bucket)
    }
  }

  // Which chunk an address at or above start lies in.
  function Chunk(start: nat, a: nat): int {
    (a - start) / CHUNK
  }

  ghost predicate Sound(b: HBlock, start: nat) {
    && MIN_BUCKET <= b.bucket <= MAX_BUCKET && b.addr >= start
    && Chunk(start, b.addr) == Chunk(start, b.End() - 1)
  }

  // The blocks fill start up to end, one after the other, each within its chunk.
  ghost predicate Tiled(bs: seq<HBlock>, start: nat, end: nat) {
    && (bs == [] ==> start == end)
    && (bs != [] ==> bs[0].addr == start && bs[|bs| - 1].End() == end)
    && (forall i | 0 <= i < |bs| :: Sound(bs[i], start))
    && (forall i | 0 <= i < |bs| - 1 :: bs[i + 1].addr == bs[i].End())
  }

  // Blocks i and i+1 lie in one chunk, and so are linked to each other.
  ghost predicate Linked(bs: seq<HBlock>, start: nat, i: int) {
    0 <= i && i + 1 < |bs| && Chunk(start, bs[i].addr) == Chunk(start, bs[i + 1].addr)
  }

  ghost predicate CanJoin(bs: seq<HBlock>, start: nat, i: int) {
    Linked(bs, start, i) && bs[i].free && bs[i + 1].free && bs[i].bucket == bs[i + 1].bucket
  }

  // No two neighbours could be coalesced.
  ghost predicate Maximal(bs: seq<HBlock>, start: nat) {
    forall i :: !CanJoin(bs, start, i)
  }

  ghost predicate MaximalBut(bs: seq<HBlock>, start: nat, k: nat) {
    forall i :: i != k && i + 1 != k ==> !CanJoin(bs, start, i)
  }

  ghost function Used(bs: seq<HBlock>): set<(nat, nat)> {
    set b | b in bs && !b.free :: (b.addr, b.bucket)
  }

  // ----- The operations -----

  // c4a_split_node
  ghost function Halved(bs: seq<HBlock>, i: nat): (r: seq<HBlock>)
    requires i < |bs| && bs[i].bucket > 0
    ensures |r| == |bs| + 1
  {
    var b := bs[i];
    bs[..i] + [HBlock(b.addr, b.bucket - 1, b.free), HBlock(b.addr + Pow2(b.bucket - 1), b.bucket - 1, b.free)] + bs[i + 1..]
  }

  // c4a_bucket_spillover: block i is halved until it is in the bucket wanted.
  ghost function Spilled(bs: seq<HBlock>, i: nat, lower: nat): seq<HBlock>
    requires i < |bs| && lower <= bs[i].bucket
    decreases bs[i].bucket - lower
  {
    if lower == bs[i].bucket then bs else Spilled(Halved(bs, i), i, lower)
  }

  ghost function Joined(bs: seq<HBlock>, i: nat): (r: seq<HBlock>)
    requires i + 1 < |bs|
    ensures |r| == |bs| - 1
  {
    bs[..i] + [HBlock(bs[i].addr, bs[i].bucket + 1, bs[i].free)] + bs[i + 2..]
  }

  // c4a_coalesce: with the block before if possible, then with the block after, until neither is.
  ghost function Coalesced(bs: seq<HBlock>, start: nat, i: nat): seq<HBlock>
    requires i < |bs|
    decreases |bs|
  {
    if CanJoin(bs, start, i - 1) then
      var c := Joined(bs, i - 1);
      if CanJoin(c, start, i - 1) then Coalesced(Joined(c, i - 1), start, i - 1) else Coalesced(c, start, i - 1)
    else if CanJoin(bs, start, i) then Coalesced(Joined(bs, i), start, i)
    else bs
  }

  // ----- Powers of two -----

  lemma Pow2Values()
    ensures Pow2(4) == 16 && Pow2(5) == 32 && Pow2(13) == 8192 && Pow2(14) == CHUNK
  {
    assert Pow2(7) == 128;
    assert Pow2(10) == 1024;
    assert Pow2(12) == 4096;
  }

  // ----- Order -----

  lemma {:induction false} AddressOrder(bs: seq<HBlock>, start: nat, end: nat, i: nat, j: nat)
    requires Tiled(bs, start, end) && i < j < |bs|
    ensures bs[i].End() <= bs[j].addr && bs[i].addr < bs[j].addr
  {
    if i + 1 < j {
      AddressOrder(bs, start, end, i, j - 1);
    }
  }

  // ----- Halving -----

  lemma HalvedElements(bs: seq<HBlock>, i: nat)
    requires i < |bs| && bs[i].bucket > 0
    ensures var r, b := Halved(bs, i), bs[i];
            && (forall k | 0 <= k < i :: r[k] == bs[k])
            && r[i] == HBlock(b.addr, b.bucket - 1, b.free)
            && r[i + 1] == HBlock(b.addr + Pow2(b.bucket - 1), b.bucket - 1, b.free)
            && (forall k | i + 1 < k < |r| :: r[k] == bs[k - 1])
  {
  }

  lemma {:induction false} HalvesSound(b: HBlock, start: nat)
    requires Sound(b, start) && b.bucket > MIN_BUCKET
    ensures Sound(HBlock(b.addr, b.bucket - 1, b.free), start)
    ensures Sound(HBlock(b.addr + Pow2(b.bucket - 1), b.bucket - 1, b.free), start)
    ensures Chunk(start, b.addr + Pow2(b.bucket - 1)) == Chunk(start, b.addr)
    ensures b.addr + Pow2(b.bucket - 1) + Pow2(b.bucket - 1) == b.End()
  {
  }

  lemma {:induction false} HalvedTiles(bs: seq<HBlock>, start: nat, end: nat, i: nat)
    requires Tiled(bs, start, end) && i < |bs| && bs[i].bucket > MIN_BUCKET
    ensures Tiled(Halved(bs, i), start, end)
  {
    hide Halved, Sound, Pow2;
    HalvesSound(bs[i], start);
    HalvedElements(bs, i);
    var r := Halved(bs, i);
    forall k | 0 <= k < |r|
      ensures Sound(r[k], start)
    {
      if k > i + 1 { assert r[k] == bs[k - 1]; }
    }
    forall k | 0 <= k < |r| - 1
      ensures r[k + 1].addr == r[k].End()
    {
      if k > i { assert r[k + 1] == bs[k]; }
    }
  }

  // The whole spill: the wanted block, and one free block in each bucket from lower on.
  lemma {:induction false} SpilledElements(bs: seq<HBlock>, i: nat, lower: nat)
    requires i < |bs| && lower <= bs[i].bucket
    ensures var r, n := Spilled(bs, i, lower), bs[i].bucket - lower;
            && |r| == |bs| + n
            && (forall k | 0 <= k < i :: r[k] == bs[k])
            && r[i] == HBlock(bs[i].addr, lower, bs[i].free)
            && (forall k | i < k <= i + n :: r[k].bucket == lower + (k - i) - 1 && r[k].free == bs[i].free)
            && (forall k | i + n < k < |r| :: r[k] == bs[k - n])
    decreases bs[i].bucket - lower
  {
    if lower < bs[i].bucket {
      HalvedElements(bs, i);
      var h, n := Halved(bs, i), bs[i].bucket - lower;
      SpilledElements(h, i, lower);
      var r := Spilled(h, i, lower);
      assert Spilled(bs, i, lower) == r;
      hide Spilled, Halved;
      forall k | i < k <= i + n
        ensures r[k].bucket == lower + (k - i) - 1 && r[k].free == bs[i].free
      {
        if k == i + n { assert r[k] == h[k - (n - 1)]; }
      }
      forall k | i + n < k < |r|
        ensures r[k] == bs[k - n]
      {
        assert r[k] == h[k - (n - 1)];
      }
    }
  }

  lemma {:induction false} SpilledTiles(bs: seq<HBlock>, start: nat, end: nat, i: nat, lower: nat)
    requires Tiled(bs, start, end) && i < |bs| && MIN_BUCKET <= lower <= bs[i].bucket
    ensures Tiled(Spilled(bs, i, lower), start, end)
    decreases bs[i].bucket - lower
  {
    if lower < bs[i].bucket {
      HalvedTiles(bs, start, end, i);
      HalvedElements(bs, i);
      SpilledTiles(Halved(bs, i), start, end, i, lower);
    }
  }

  // Splitting down from the first bucket that is not empty leaves nothing to coalesce: no
  // free block of the sizes in between existed.
  lemma {:induction false} SpilledMaximal(bs: seq<HBlock>, start: nat, i: nat, lower: nat)
    requires Maximal(bs, start) && i < |bs| && bs[i].free && lower <= bs[i].bucket
    requires forall k | 0 <= k < |bs| && bs[k].free :: !(lower <= bs[k].bucket < bs[i].bucket)
    ensures var r := Spilled(bs, i, lower); i < |r| && Maximal(r[i := r[i].(free := false)], start)
  {
    SpilledElements(bs, i, lower);
    hide Spilled;
    var r, n := Spilled(bs, i, lower), bs[i].bucket - lower;
    var u := r[i := r[i].(free := false)];
    forall k
      ensures !CanJoin(u, start, k)
    {
      if 0 <= k && k + 1 < |u| {
        if k + 1 < i {
          assert u[k] == bs[k] && u[k + 1] == bs[k + 1];
          assert !CanJoin(bs, start, k);
        } else if i < k < i + n {
          assert u[k].bucket + 1 == u[k + 1].bucket;
        } else if i + n < k {
          assert u[k] == bs[k - n] && u[k + 1] == bs[k + 1 - n];
          assert !CanJoin(bs, start, k - n);
        } else if i + n == k && n > 0 {
          assert u[k + 1] == bs[i + 1] && u[k].bucket == bs[i].bucket - 1;
        }
      }
    }
  }

  // ----- Joining -----

  lemma JoinedElements(bs: seq<HBlock>, i: nat)
    requires i + 1 < |bs|
    ensures var r := Joined(bs, i);
            && (forall k | 0 <= k < i :: r[k] == bs[k])
            && r[i] == HBlock(bs[i].addr, bs[i].bucket + 1, bs[i].free)
            && (forall k | i < k < |r| :: r[k] == bs[k + 1])
  {
  }

  // Two equal neighbours never fill more than a chunk, so the bucket number stays in range.
  lemma {:induction false} JoinedSound(bs: seq<HBlock>, start: nat, end: nat, i: nat)
    requires Tiled(bs, start, end) && CanJoin(bs, start, i)
    ensures Sound(HBlock(bs[i].addr, bs[i].bucket + 1, bs[i].free), start)
    ensures bs[i].addr + Pow2(bs[i].bucket + 1) == bs[i + 1].End()
  {
    var a, b := bs[i], bs[i + 1];
    assert Sound(a, start) && Sound(b, start);
    assert b.End() - a.addr == Pow2(a.bucket + 1);
    if a.bucket == MAX_BUCKET {
      Pow2Values();
    }
  }

  lemma {:induction false} JoinedTiles(bs: seq<HBlock>, start: nat, end: nat, i: nat)
    requires Tiled(bs, start, end) && CanJoin(bs, start, i)
    ensures Tiled(Joined(bs, i), start, end)
  {
    JoinedSound(bs, start, end, i);
    JoinedElements(bs, i);
    hide Joined, Sound, Pow2, CanJoin;
    var r := Joined(bs, i);
    forall k | 0 <= k < |r|
      ensures Sound(r[k], start)
    {
      if k > i { assert r[k] == bs[k + 1]; }
    }
    forall k | 0 <= k < |r| - 1
      ensures r[k + 1].addr == r[k].End()
    {
      if k >= i { assert r[k + 1] == bs[k + 2]; }
    }
  }

  lemma {:induction false} JoinedMaximalBut(bs: seq<HBlock>, start: nat, i: nat, k: nat)
    requires CanJoin(bs, start, i) && (k == i || k == i + 1) && MaximalBut(bs, start, k)
    ensures Joined(bs, i)[i].free && MaximalBut(Joined(bs, i), start, i)
  {
    JoinedElements(bs, i);
    hide Joined;
    var r := Joined(bs, i);
    forall j: int | j != i && j + 1 != i
      ensures !CanJoin(r, start, j)
    {
      if 0 <= j && j + 1 < |r| {
        if j < i {
          assert !CanJoin(bs, start, j);
        } else {
          assert r[j] == bs[j + 1] && r[j + 1] == bs[j + 2];
          assert !CanJoin(bs, start, j + 1);
        }
      }
    }
  }

  lemma UsedSum(a: seq<HBlock>, b: seq<HBlock>, c: seq<HBlock>)
    ensures Used(a + b + c) == Used(a) + Used(b) + Used(c)
  {
    assert forall x :: x in a + b + c <==> x in a || x in b || x in c;
  }

  lemma {:induction false} JoinedUsed(bs: seq<HBlock>, start: nat, i: nat)
    requires CanJoin(bs, start, i)
    ensures Used(Joined(bs, i)) == Used(bs)
  {
    assert bs == bs[..i] + bs[i..i + 2] + bs[i + 2..];
    UsedSum(bs[..i], bs[i..i + 2], bs[i + 2..]);
    UsedSum(bs[..i], [HBlock(bs[i].addr, bs[i].bucket + 1, true)], bs[i + 2..]);
  }

  lemma {:induction false} CoalescedKeeps(bs: seq<HBlock>, start: nat, end: nat, i: nat)
    requires Tiled(bs, start, end) && i < |bs| && bs[i].free && MaximalBut(bs, start, i)
    ensures var r := Coalesced(bs, start, i); Tiled(r, start, end) && Maximal(r, start) && Used(r) == Used(bs)
    decreases |bs|
  {
    hide Joined, Used, Tiled;
    if CanJoin(bs, start, i - 1) {
      JoinStep(bs, start, end, i - 1, i);
      var c := Joined(bs, i - 1);
      if CanJoin(c, start, i - 1) {
        JoinStep(c, start, end, i - 1, i - 1);
        CoalescedKeeps(Joined(c, i - 1), start, end, i - 1);
      } else {
        CoalescedKeeps(c, start, end, i - 1);
      }
    } else if CanJoin(bs, start, i) {
      JoinStep(bs, start, end, i, i);
      CoalescedKeeps(Joined(bs, i), start, end, i);
    } else {
      assert forall j :: !CanJoin(bs, start, j);
    }
  }

  lemma {:induction false} JoinStep(bs: seq<HBlock>, start: nat, end: nat, i: nat, k: nat)
    requires Tiled(bs, start, end) && CanJoin(bs, start, i) && (k == i || k == i + 1) && MaximalBut(bs, start, k)
    ensures var r := Joined(bs, i);
            i < |r| && r[i].free && Tiled(r, start, end) && MaximalBut(r, start, i) && Used(r) == Used(bs)
  {
    JoinedTiles(bs, start, end, i);
    JoinedMaximalBut(bs, start, i, k);
    JoinedUsed(bs, start, i);
  }

  // ----- Allocating and freeing a block -----

  ghost function Allocated(bs: seq<HBlock>, i: nat, lower: nat): seq<HBlock>
    requires i < |bs| && lower <= bs[i].bucket
  {
    var s := Spilled(bs, i, lower);
    if i < |s| then s[i := s[i].(free := false)] else s
  }

  ghost function Freed(bs: seq<HBlock>, start: nat, i: nat): seq<HBlock>
    requires i < |bs|
  {
    Coalesced(bs[i := bs[i].(free := true)], start, i)
  }

  lemma FlagTiles(bs: seq<HBlock>, start: nat, end: nat, i: nat, free: bool)
    requires Tiled(bs, start, end) && i < |bs|
    ensures Tiled(bs[i := bs[i].(free := free)], start, end)
  {
  }

  lemma {:induction false} UsedAt(bs: seq<HBlock>, start: nat, end: nat, i: nat, free: bool)
    requires Tiled(bs, start, end) && i < |bs|
    ensures var b := bs[i];
            Used(bs[i := b.(free := free)]) == if free then Used(bs) - {(b.addr, b.bucket)} else Used(bs) + {(b.addr, b.bucket)}
  {
    var b := bs[i];
    var f := bs[i := b.(free := free)];
    assert bs == bs[..i] + [b] + bs[i + 1..] && f == bs[..i] + [b.(free := free)] + bs[i + 1..];
    UsedSum(bs[..i], [b], bs[i + 1..]);
    UsedSum(bs[..i], [b.(free := free)], bs[i + 1..]);
    assert Used([b]) == if b.free then {} else {(b.addr, b.bucket)} by { assert [b][0] in [b]; }
    var g := [b.(free := free)];
    assert Used(g) == if free then {} else {(b.addr, b.bucket)} by { assert g[0] in g; }
    assert (b.addr, b.bucket) !in Used(bs[..i]) + Used(bs[i + 1..]) by { AddressesDiffer(bs, start, end, i); }
  }

  lemma {:induction false} AddressesDiffer(bs: seq<HBlock>, start: nat, end: nat, i: nat)
    requires Tiled(bs, start, end) && i < |bs|
    ensures forall b | b in bs[..i] || b in bs[i + 1..] :: b.addr != bs[i].addr
  {
    forall b | b in bs[..i] || b in bs[i + 1..]
      ensures b.addr != bs[i].addr
    {
      if b in bs[..i] {
        var j :| 0 <= j < i && bs[j] == b;
        AddressOrder(bs, start, end, j, i);
      } else {
        var j :| 0 <= j < |bs| - i - 1 && bs[i + 1..][j] == b;
        AddressOrder(bs, start, end, i, i + 1 + j);
      }
    }
  }

  lemma {:induction false} SpilledUsed(bs: seq<HBlock>, i: nat, lower: nat)
    requires i < |bs| && bs[i].free && lower <= bs[i].bucket
    ensures Used(Spilled(bs, i, lower)) == Used(bs)
    decreases bs[i].bucket - lower
  {
    if lower < bs[i].bucket {
      var b, h := bs[i], Halved(bs, i);
      var mid := [HBlock(b.addr, b.bucket - 1, b.free), HBlock(b.addr + Pow2(b.bucket - 1), b.bucket - 1, b.free)];
      assert bs == bs[..i] + [b] + bs[i + 1..];
      UsedSum(bs[..i], [b], bs[i + 1..]);
      UsedSum(bs[..i], mid, bs[i + 1..]);
      HalvedElements(bs, i);
      SpilledUsed(h, i, lower);
    }
  }

  lemma {:induction false} AllocatedKeeps(bs: seq<HBlock>, start: nat, end: nat, i: nat, lower: nat)
    requires Tiled(bs, start, end) && Maximal(bs, start) && i < |bs| && bs[i].free && MIN_BUCKET <= lower <= bs[i].bucket
    requires forall k | 0 <= k < |bs| && bs[k].free :: !(lower <= bs[k].bucket < bs[i].bucket)
    ensures var r := Allocated(bs, i, lower);
            && Tiled(r, start, end) && Maximal(r, start)
            && i < |r| && r[i] == HBlock(bs[i].addr, lower, false)
            && Used(r) == Used(bs) + {(bs[i].addr, lower)}
  {
    var s := Spilled(bs, i, lower);
    SpilledTiles(bs, start, end, i, lower);
    SpilledElements(bs, i, lower);
    SpilledMaximal(bs, start, i, lower);
    SpilledUsed(bs, i, lower);
    FlagTiles(s, start, end, i, false);
    UsedAt(s, start, end, i, false);
  }

  lemma {:induction false} FreedKeeps(bs: seq<HBlock>, start: nat, end: nat, i: nat)
    requires Tiled(bs, start, end) && Maximal(bs, start) && i < |bs| && !bs[i].free
    ensures var r := Freed(bs, start, i);
            && Tiled(r, start, end) && Maximal(r, start)
            && Used(r) == Used(bs) - {(bs[i].addr, bs[i].bucket)}
  {
    var f := bs[i := bs[i].(free := true)];
    FlagTiles(bs, start, end, i, true);
    UsedAt(bs, start, end, i, true);
    forall j: int | j != i && j + 1 != i
      ensures !CanJoin(f, start, j)
    {
      assert !CanJoin(bs, start, j);
    }
    CoalescedKeeps(f, start, end, i);
  }

  // ----- Freeing at once what was allocated -----

  lemma {:induction false} SpillUndone(bs: seq<HBlock>, i: nat, lower: nat)
    requires i < |bs| && lower < bs[i].bucket
    ensures i + 1 < |Spilled(bs, i, lower)| && Joined(Spilled(bs, i, lower), i) == Spilled(bs, i, lower + 1)
    decreases bs[i].bucket - lower
  {
    var h := Halved(bs, i);
    HalvedElements(bs, i);
    if lower + 1 == bs[i].bucket {
      assert Spilled(h, i, lower) == h;
      assert Joined(h, i) == bs;
    } else {
      SpillUndone(h, i, lower);
    }
  }

  lemma {:induction false} SpillCoalesces(bs: seq<HBlock>, start: nat, end: nat, i: nat, lower: nat)
    requires Tiled(bs, start, end) && Maximal(bs, start) && i < |bs| && bs[i].free && MIN_BUCKET <= lower <= bs[i].bucket
    requires forall k | 0 <= k < |bs| && bs[k].free :: !(lower <= bs[k].bucket < bs[i].bucket)
    ensures i < |Spilled(bs, i, lower)| && Coalesced(Spilled(bs, i, lower), start, i) == bs
    decreases bs[i].bucket - lower
  {
    hide Tiled, Maximal, CanJoin, Joined, Spilled;
    NotWithBefore(bs, start, i, lower);
    if lower < bs[i].bucket {
      SpillUndone(bs, i, lower);
      SpilledTogether(bs, start, end, i, lower);
      SpillCoalesces(bs, start, end, i, lower + 1);
    } else {
      NotWithAfter(bs, start, i);
    }
  }

  // What is left of the split block does not go with the block before it.
  lemma {:induction false} NotWithBefore(bs: seq<HBlock>, start: nat, i: nat, lower: nat)
    requires Maximal(bs, start) && i < |bs| && bs[i].free && lower <= bs[i].bucket
    requires forall k | 0 <= k < |bs| && bs[k].free :: !(lower <= bs[k].bucket < bs[i].bucket)
    ensures i < |Spilled(bs, i, lower)| && !CanJoin(Spilled(bs, i, lower), start, i - 1)
  {
    SpilledElements(bs, i, lower);
    hide Spilled;
    assert !CanJoin(bs, start, i - 1);
  }

  lemma NotWithAfter(bs: seq<HBlock>, start: nat, i: nat)
    requires Maximal(bs, start) && i < |bs|
    ensures Spilled(bs, i, bs[i].bucket) == bs && !CanJoin(bs, start, i)
  {
  }

  lemma {:induction false} SpilledTogether(bs: seq<HBlock>, start: nat, end: nat, i: nat, lower: nat)
    requires Tiled(bs, start, end) && i < |bs| && bs[i].free && MIN_BUCKET <= lower < bs[i].bucket
    ensures CanJoin(Spilled(bs, i, lower), start, i)
  {
    var s := Spilled(bs, i, lower);
    SpilledElements(bs, i, lower);
    SpilledTiles(bs, start, end, i, lower);
    Pow2Mono(lower, bs[i].bucket);
    assert Sound(bs[i], start) && s[i + 1].addr == s[i].End();
  }

  // Giving a block back right away restores the heap exactly.
  lemma {:induction false} AllocFree(bs: seq<HBlock>, start: nat, end: nat, i: nat, lower: nat)
    requires Tiled(bs, start, end) && Maximal(bs, start) && i < |bs| && bs[i].free && MIN_BUCKET <= lower <= bs[i].bucket
    requires forall k | 0 <= k < |bs| && bs[k].free :: !(lower <= bs[k].bucket < bs[i].bucket)
    ensures i < |Allocated(bs, i, lower)| && Freed(Allocated(bs, i, lower), start, i) == bs
  {
    var s := Spilled(bs, i, lower);
    SpilledElements(bs, i, lower);
    SpillCoalesces(bs, start, end, i, lower);
    var a := s[i := s[i].(free := false)];
    assert a[i := a[i].(free := true)] == s;
  }

  // ----- Bytes -----

  ghost function Bytes(bs: seq<HBlock>, free: bool): nat {
    if bs == [] then 0 else (if bs[0].free == free then Pow2(bs[0].bucket) else 0) + Bytes(bs[1..], free)
  }

  // Used and free bytes together are the whole heap.
  lemma {:induction false} BytesConserved(bs: seq<HBlock>, start: nat, end: nat, from: nat)
    requires Tiled(bs, start, end) && from <= |bs|
    ensures var lo := if from < |bs| then bs[from].addr else end;
            lo + Bytes(bs[from..], true) + Bytes(bs[from..], false) == end
    decreases |bs| - from
  {
    if from < |bs| {
      BytesConserved(bs, start, end, from + 1);
      assert bs[from..][1..] == bs[from + 1..];
    }
  }

  // Taking a free block moves its bytes from the free to the used ones.
  lemma {:induction false} BytesMove(bs: seq<HBlock>, i: nat)
    requires i < |bs| && bs[i].free
    ensures var t := bs[i := bs[i].(free := false)];
            && Bytes(t, false) == Bytes(bs, false) + Pow2(bs[i].bucket)
            && Bytes(t, true) == Bytes(bs, true) - Pow2(bs[i].bucket)
  {
    var t := bs[i := bs[i].(free := false)];
    if i == 0 {
      assert t[1..] == bs[1..];
    } else {
      assert t[1..] == bs[1..][i - 1 := bs[1..][i - 1].(free := false)];
      BytesMove(bs[1..], i - 1);
    }
  }

  // ----- The bucket for a request -----

  const HEADER := 20

  // The bucket c4a_alloc takes for a request of this many bytes; the header is added in 32 bits.
  ghost predicate BucketFor(size: nat, index: nat) {
    var adjusted := (size + HEADER) % WORD;
    if adjusted == 0 then index == 1
    else Pow2(index) >= adjusted && (index > 0 ==> Pow2(index - 1) < adjusted)
  }

  // The block is large enough for header and payload exactly when adding the header does not wrap.
  lemma {:induction false} BucketFits(size: nat, index: nat)
    requires size < WORD && BucketFor(size, index)
    ensures Pow2(index) >= size + HEADER <==> size + HEADER < WORD
    ensures size + HEADER < WORD ==> index >= MIN_BUCKET
  {
    var adjusted := (size + HEADER) % WORD;
    if size + HEADER >= WORD {
      assert adjusted == size + HEADER - WORD < HEADER;
      Pow2Values();
      if index > 5 { Pow2Mono(5, index - 1); } else { Pow2Mono(index, 5); }
    } else {
      Pow2Values();
      if index < 5 { Pow2Mono(index, 4); }
    }
  }
}

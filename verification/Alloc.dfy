/** alloc.c: the c4alloc heap. A block is taken from the first bucket that holds one and split down
    to size; a block given back is coalesced with its equal free neighbours until none is left. */
module Alloc {
  import opened Common
  import opened HeapBlocks
  import opened HeapMerges
  import opened HeapMemory

  // ----- ulog2 -----

  ghost predicate Shifted(n: nat, m: nat, p: nat) {
    m * p <= n < (m + 1) * p
  }

  lemma HalfStep(n: nat, m: nat, p: nat)
    requires p > 0 && m > 0 && Shifted(n, m, p)
    ensures Shifted(n, m / 2, 2 * p) && p <= n
  {
    var h := m / 2;
    assert m * p >= p;
    if m % 2 == 0 {
      assert m * p == h * (2 * p);
    } else {
      assert m == 2 * h + 1;
      assert m * p == h * (2 * p) + p && (m + 1) * p == (h + 1) * (2 * p);
    }
  }

  // The base 2 logarithm, rounded down; 0 for 0.
  method Ulog2(n: nat) returns (i: nat)
    ensures n == 0 ==> i == 0
    ensures n > 0 ==> Pow2(i) <= n < Pow2(i + 1)
  {
    i := 0;
    var m: nat := n / 2;
    assert Shifted(n, m, 2) && Pow2(0) == 1 && Pow2(1) == 2;
    while m != 0
      invariant Shifted(n, m, Pow2(i + 1)) && (n > 0 ==> Pow2(i) <= n) && (n == 0 ==> i == 0 && m == 0)
      decreases m
    {
      HalfStep(n, m, Pow2(i + 1));
      assert Pow2(i + 2) == 2 * Pow2(i + 1);
      m, i := m / 2, i + 1;
    }
  }

  // The start of c4a_alloc, for every 32-bit size: the header is added, which may wrap, and the
  // logarithm rounded up.
  method BucketIndex(size: nat) returns (index: nat)
    requires size < WORD
    ensures BucketFor(size, index)
    ensures Pow2(index) >= size + HEADER <==> size + HEADER < WORD
  {
    var adjusted := (size + HEADER) % WORD;
    index := Ulog2(adjusted);
    if adjusted != Pow2(index) {
      index := index + 1;
    }
    BucketFits(size, index);
  }

  // ----- Which block a request gets -----

  ghost predicate Supplies(bs: seq<HBlock>, index: nat) {
    exists k :: 0 <= k < |bs| && bs[k].free && bs[k].bucket >= index
  }

  // The blocks a request is served from: those there are, or one more chunk if none is large enough.
  ghost function Supply(bs: seq<HBlock>, end: nat, index: nat): seq<HBlock> {
    if Supplies(bs, index) then bs else GrownBlocks(bs, end)
  }

  // Block i is free, large enough, and no free block that is large enough is smaller.
  ghost predicate Fits(bs: seq<HBlock>, i: nat, index: nat) {
    && i < |bs| && bs[i].free && index <= bs[i].bucket
    && forall k | 0 <= k < |bs| && bs[k].free :: !(index <= bs[k].bucket < bs[i].bucket)
  }

  // No byte of a payload is in another block, so callers do not overwrite headers or each other.
  lemma {:induction false} PayloadsApart(bs: seq<HBlock>, start: nat, end: nat, i: nat, j: nat, x: nat, y: nat)
    requires Tiled(bs, start, end) && i < |bs| && j < |bs| && i != j
    requires bs[i].addr + HEADER <= x < bs[i].End() && bs[j].addr <= y < bs[j].End()
    ensures x != y && start <= x < end
  {
    if i < j {
      AddressOrder(bs, start, end, i, j);
    } else {
      AddressOrder(bs, start, end, j, i);
    }
    if i + 1 < |bs| {
      AddressOrder(bs, start, end, i, |bs| - 1);
    }
    assert Sound(bs[i], start);
  }

  class Heap {
    const start: nat
    var pages: nat
    const buckets: array<nat>
    // The block headers, by address.
    var mem: Memory
    ghost var blocks: seq<HBlock>
    ghost var lists: seq<seq<nat>>

    ghost function Now(): State
      reads this, buckets
    {
      State(start, pages, mem, buckets[..], blocks, lists)
    }

    // Everything but the blocks in loose is in its place.
    ghost predicate Holds(loose: set<nat>)
      reads this, buckets
    {
      buckets.Length == |lists| == BUCKETS && Inv(Now(), loose)
    }

    ghost predicate Valid()
      reads this, buckets
    {
      Holds({}) && Maximal(blocks, start)
    }

    // c4a_heap_init
    constructor (location: nat)
      requires location > 0
      ensures Valid() && fresh(buckets)
      ensures start == location && pages == 0 && blocks == []
    {
      start, pages := location, 0;
      buckets := new nat[BUCKETS](_ => NULL);
      mem, blocks := map[], [];
      lists := seq(BUCKETS, _ => []);
    }

    // c4a_bucket_insert
    method BucketInsert(index: nat, node: nat)
      requires node in mem && index < buckets.Length && (buckets[index] == NULL || buckets[index] in mem)
      modifies this`mem, buckets
      ensures mem == PushedMem(old(mem), old(buckets[index]), node) && buckets[..] == old(buckets[..])[index := node]
    {
      if buckets[index] != NULL {
        mem := mem[buckets[index] := mem[buckets[index]].(previous := node)];
      }
      mem := mem[node := mem[node].(next := buckets[index])];
      mem := mem[node := mem[node].(previous := NULL)];
      buckets[index] := node;
    }

    // c4a_bucket_insert of a loose block
    method InsertBlock(index: nat, node: nat, ghost loose: set<nat>)
      requires Holds(loose) && node in loose && HBlock(node, index, true) in blocks
      modifies this, buckets
      ensures node in old(mem) && index < BUCKETS && Now() == Pushed(old(Now()), node, index)
      ensures Holds(loose - {node})
    {
      hide Inv, Shape, Filed, PushedMem, Maximal;
      ghost var s := Now();
      PushKeeps(s, node, index, loose);
      InvThreaded(s, loose);
      HeadInMem(s, index);
      BucketInsert(index, node);
      lists := lists[index := [node] + lists[index]];
      assert Now() == Pushed(s, node, index);
    }

    // c4a_node_unlink
    method Unlink(node: nat)
      requires node in mem && mem[node].bucket < buckets.Length
      requires forall a | a == mem[node].previous || a == mem[node].next :: a == NULL || (a in mem && a != node)
      modifies this, buckets
      ensures mem == UnlinkedMem(old(mem), node)
      ensures buckets[..] == if old(buckets[mem[node].bucket]) == node then old(buckets[..])[old(mem)[node].bucket := old(mem)[node].next]
                             else old(buckets[..])
      ensures pages == old(pages) && blocks == old(blocks) && lists == old(lists)
    {
      if node == buckets[mem[node].bucket] {
        buckets[mem[node].bucket] := mem[node].next;
      }
      if mem[node].previous != NULL {
        mem := mem[mem[node].previous := mem[mem[node].previous].(next := mem[node].next)];
      }
      if mem[node].next != NULL {
        mem := mem[mem[node].next := mem[mem[node].next].(previous := mem[node].previous)];
      }
      mem := mem[node := mem[node].(previous := NULL)];
      mem := mem[node := mem[node].(next := NULL)];
    }

    // c4a_node_unlink of a free block, which is in its list or is loose and has no links.
    method UnlinkBlock(node: nat, ghost h: HBlock, ghost loose: set<nat>) returns (ghost k: nat)
      requires Holds(loose) && h in blocks && h.addr == node && h.free
      requires node in loose && node in mem ==> mem[node].previous == mem[node].next == NULL
      modifies this, buckets
      ensures node in loose ==> Now() == old(Now())
      ensures node !in loose ==> h.bucket < BUCKETS && k < |old(lists)[h.bucket]| && old(lists)[h.bucket][k] == node && node in old(mem)
                                 && Now() == Unlinked(old(Now()), h.bucket, k)
      ensures Holds(loose + {node}) && node in mem && mem[node].previous == mem[node].next == NULL
      ensures forall x | x in loose && x in old(mem) && x != NULL :: x in mem && mem[x] == old(mem)[x]
    {
      ghost var s := Now();
      BlockFacts(s, h);
      k := 0;
      if node in loose {
        UnlinkLoose(s, h, loose);
      } else {
        k :| 0 <= k < |lists[h.bucket]| && lists[h.bucket][k] == node;
        UnlinkKeeps(s, h.bucket, k, loose);
        UnlinkSpares(s, h.bucket, k, loose);
        HeadInList(s, h.bucket, k);
      }
      assert UnlinkedMem(mem, node)[node] == mem[node].(previous := NULL, next := NULL);
      hide Inv, UnlinkedMem;
      Unlink(node);
      if node in loose {
        assert loose + {node} == loose;
      } else {
        lists := lists[h.bucket := Removed(lists[h.bucket], k)];
        assert buckets[..] == s.heads[h.bucket := First(Removed(s.lists[h.bucket], k))];
      }
    }

    // c4a_bucket_pop
    method BucketPop(index: nat, ghost loose: set<nat>) returns (node: nat)
      requires Holds(loose) && index < BUCKETS
      modifies this, buckets
      ensures node == NULL <==> old(lists)[index] == []
      ensures node == NULL ==> Now() == old(Now())
      ensures node != NULL ==> node == old(lists)[index][0] && node !in loose && HBlock(node, index, true) in blocks
      ensures Holds(if node == NULL then loose else loose + {node})
      ensures blocks == old(blocks) && pages == old(pages)
      ensures node != NULL ==> node in mem && mem[node].previous == mem[node].next == NULL
    {
      ghost var s := Now();
      HeadInMem(s, index);
      node := buckets[index];
      if node != NULL {
        assert s.lists[index][0] == node;
        ghost var k := UnlinkBlock(node, HBlock(node, index, true), loose);
      }
    }

    // c4a_grow: one chunk more. The loop over chunks runs once.
    method Grow()
      requires Holds({})
      modifies this, buckets
      ensures Holds({}) && pages == old(pages) + CHUNK / PAGE_SIZE
      ensures blocks == GrownBlocks(old(blocks), old(Now().End()))
      ensures MAX_BUCKET < |old(lists)| && lists == old(lists)[MAX_BUCKET := [old(Now().End())] + old(lists)[MAX_BUCKET]]
    {
      ghost var s := Now();
      GrowKeeps(s);
      hide Inv;
      var node := start + pages * PAGE_SIZE;
      pages := pages + CHUNK / PAGE_SIZE;
      mem := mem[node := Node(NULL, NULL, NULL, NULL, FREE, MAX_BUCKET)];
      blocks := GrownBlocks(blocks, node);
      assert Now() == Grown(s);
      assert blocks[|blocks| - 1] == HBlock(node, MAX_BUCKET, true);
      InsertBlock(MAX_BUCKET, node, {node});
      assert {node} - {node} == {};
    }

    // c4a_find_upwards_bucket: the first bucket from index on with a block in it.
    method FindUpwardsBucket(index: nat) returns (k: nat)
      requires Holds({}) && index <= BUCKETS
      modifies this, buckets
      ensures Holds({}) && k < BUCKETS && lists[k] != [] && (index <= k || k == MAX_BUCKET)
      ensures blocks == Supply(old(blocks), old(Now().End()), index)
      ensures pages == old(pages) + if Supplies(old(blocks), index) then 0 else CHUNK / PAGE_SIZE
      ensures forall h | h in blocks && h.free :: !(index <= h.bucket < k)
    {
      ghost var s := Now();
      k := index;
      while k <= MAX_BUCKET
        invariant index <= k <= BUCKETS
        invariant Now() == s
        invariant forall h | h in blocks && h.free :: !(index <= h.bucket < k)
      {
        HeadInMem(s, k);
        if buckets[k] != NULL {
          HeadSupplies(s, index, k);
          return;
        }
        EmptyBucket(s, k);
        k := k + 1;
      }
      NoneSupplies(s, index);
      Grow();
      return MAX_BUCKET;
    }

    // c4a_split_node
    method SplitNode(node: nat) returns (temp: nat)
      requires node in mem && mem[node].bucket > 0 && node != NULL
      requires mem[node].physNext == NULL || mem[node].physNext in mem
      modifies this`mem
      ensures mem == SplitMem(old(mem), node) && temp == node + Pow2(old(mem)[node].bucket - 1)
    {
      temp := node + Pow2(mem[node].bucket - 1);
      mem := mem[node := mem[node].(bucket := mem[node].bucket - 1)];
      mem := mem[temp := Node(node, mem[node].next, mem[node].physNext, node, mem[node].status, mem[node].bucket)];
      mem := mem[node := mem[node].(next := temp)];
      mem := mem[node := mem[node].(physNext := temp)];
      if mem[temp].physNext != NULL {
        mem := mem[mem[temp].physNext := mem[mem[temp].physNext].(physPrev := temp)];
      }
    }

    // Splitting a loose block makes its upper half a block of its own, loose too.
    method SplitBlock(node: nat, ghost i: nat, ghost loose: set<nat>) returns (temp: nat)
      requires Holds(loose) && i < |blocks| && blocks[i].addr == node && node in loose && blocks[i].bucket > MIN_BUCKET
      modifies this
      ensures i < |old(blocks)| && old(blocks)[i].bucket > 0
      ensures temp == node + Pow2(old(blocks)[i].bucket - 1) != node
      ensures Holds(loose + {temp}) && blocks == Halved(old(blocks), i) && pages == old(pages)
    {
      hide Inv, SplitMem, Halved, Pow2, Maximal;
      ghost var s := Now();
      SplitReady(s, i, loose);
      temp := SplitNode(node);
      blocks := Halved(blocks, i);
      assert Now() == Split(s, i);
    }

    // c4a_bucket_spillover: a block of bucket upper is split down to bucket lower.
    method BucketSpillover(lower: nat, upper: nat) returns (ghost i: nat)
      requires Holds({}) && MIN_BUCKET <= lower <= upper < BUCKETS && lists[upper] != []
      modifies this, buckets
      ensures Holds({}) && pages == old(pages)
      ensures i < |old(blocks)| && old(blocks)[i].free && old(blocks)[i].bucket == upper
      ensures blocks == Spilled(old(blocks), i, lower) && |lists[lower]| > 0 && lists[lower][0] == old(blocks)[i].addr
    {
      hide Inv, Pow2;
      var node := BucketPop(upper, {});
      i :| 0 <= i < |blocks| && blocks[i] == HBlock(node, upper, true);
      assert {} + {node} == {node};
      ghost var bs := blocks;
      var k := upper;
      while k > lower
        invariant lower <= k <= upper && i < |blocks| && blocks[i] == HBlock(node, k, true)
        invariant Holds({node}) && Spilled(blocks, i, lower) == Spilled(bs, i, lower) && pages == old(pages)
      {
        assert Spilled(Halved(blocks, i), i, lower) == Spilled(blocks, i, lower);
        hide Halved, Spilled;
        FileHalf(node, i, k);
        k := k - 1;
      }
      hide Spilled;
      assert blocks[i] in blocks;
      InsertBlock(lower, node, {node});
      assert {node} - {node} == {};
    }

    // One round of the spillover: the upper half goes into its bucket.
    method FileHalf(node: nat, ghost i: nat, k: nat)
      requires Holds({node}) && MIN_BUCKET < k < BUCKETS && i < |blocks| && blocks[i] == HBlock(node, k, true)
      modifies this, buckets
      ensures Holds({node}) && pages == old(pages)
      ensures blocks == Halved(old(blocks), i) && i < |blocks| && blocks[i] == HBlock(node, k - 1, true)
    {
      hide Inv, Pow2;
      HalvedElements(blocks, i);
      hide Halved;
      var temp := SplitBlock(node, i, {node});
      assert blocks[i + 1] == HBlock(temp, k - 1, true) && blocks[i] == HBlock(node, k - 1, true);
      assert blocks[i + 1] in blocks;
      InsertBlock(k - 1, temp, {node} + {temp});
      assert {node} + {temp} - {temp} == {node};
    }

    // c4a_get_node_from_bucket
    method GetNodeFromBucket(index: nat) returns (ret: nat, ghost i: nat)
      requires Holds({}) && MIN_BUCKET <= index <= MAX_BUCKET
      modifies this, buckets
      ensures Holds({ret}) && pages == old(pages) + if Supplies(old(blocks), index) then 0 else CHUNK / PAGE_SIZE
      ensures var bs := Supply(old(blocks), old(Now().End()), index);
              Fits(bs, i, index) && blocks == Spilled(bs, i, index) && ret == bs[i].addr
    {
      hide Inv, Supply, Supplies, Fits, Spilled;
      ret := BucketPop(index, {});
      if ret != NULL {
        i :| 0 <= i < |blocks| && blocks[i] == HBlock(ret, index, true);
        FoundFits(blocks, old(Now().End()), index, i);
        assert {} + {ret} == {ret};
      } else {
        NothingIn(Now(), index);
        var next := FindUpwardsBucket(index + 1);
        ghost var bs := blocks;
        i := BucketSpillover(index, next);
        SupplyFits(old(blocks), old(Now().End()), index, next, i);
        ret := BucketPop(index, {});
        assert {} + {ret} == {ret};
        ghost var k := UnlinkBlock(ret, HBlock(ret, index, true), {ret});
        assert {ret} + {ret} == {ret};
      }
    }

    // c4a_can_coalesce
    predicate CanCoalesce(a: nat, b: nat)
      reads this
      requires (a == NULL || a in mem) && (b == NULL || b in mem)
    {
      a != NULL && b != NULL && mem[a].status == FREE && mem[b].status == FREE && mem[a].bucket == mem[b].bucket
    }

    // The relinking in c4a_do_coalesce
    method JoinNodes(a: nat, b: nat)
      requires a in mem && b in mem && a != b && (mem[b].physNext == NULL || mem[b].physNext in mem)
      modifies this`mem
      ensures mem == JoinMem(old(mem), a, b)
    {
      mem := mem[a := mem[a].(bucket := mem[a].bucket + 1)];
      mem := mem[a := mem[a].(physNext := mem[b].physNext)];
      if mem[a].physNext != NULL {
        mem := mem[mem[a].physNext := mem[mem[a].physNext].(physPrev := a)];
      }
    }

    // c4a_do_coalesce: blocks i and i+1, one of them loose, become one if they can.
    method DoCoalesce(a: nat, b: nat, ghost i: int, ghost n: nat) returns (joined: bool)
      requires Holds({n}) && n in mem && mem[n].previous == mem[n].next == NULL
      requires a != NULL && b != NULL <==> Linked(blocks, start, i)
      requires Linked(blocks, start, i) ==> blocks[i].addr == a && blocks[i + 1].addr == b && (n == a || n == b)
      modifies this, buckets
      ensures joined <==> CanJoin(old(blocks), start, i)
      ensures !joined ==> Now() == old(Now())
      ensures joined ==> blocks == Joined(old(blocks), i) && pages == old(pages)
      ensures joined ==> Holds({a}) && a in mem && mem[a].previous == mem[a].next == NULL
    {
      hide Inv, Linked;
      if a == NULL || b == NULL {
        return false;
      }
      PairFacts(Now(), i, {n});
      joined := CanCoalesce(a, b);
      if joined {
        ghost var k := UnlinkBlock(a, blocks[i], {n});
        k := UnlinkBlock(b, blocks[i + 1], {n} + {a});
        ghost var s := Now();
        assert {n} + {a} + {b} - {b} == {a} by { JoinReady(s, i, {n} + {a} + {b}); }
        JoinReady(s, i, {n} + {a} + {b});
        hide JoinMem, Joined;
        JoinNodes(a, b);
        blocks := Joined(blocks, i);
        assert Now() == Join(s, i);
      }
    }

    // c4a_coalesce: with the neighbour before, then with the one after, until neither is possible.
    method Coalesce(n: nat, ghost at: nat) returns (node: nat, ghost i: nat)
      requires Holds({n}) && n in mem && mem[n].previous == mem[n].next == NULL
      requires at < |blocks| && blocks[at].addr == n && blocks[at].free
      modifies this, buckets
      ensures Holds({node}) && pages == old(pages)
      ensures blocks == Coalesced(old(blocks), start, at)
      ensures i < |blocks| && blocks[i].addr == node && blocks[i].free
    {
      hide Inv, Linked, Joined, CanJoin;
      node, i := n, at;
      var coalesced := true;
      while coalesced
        invariant Holds({node}) && node in mem && mem[node].previous == mem[node].next == NULL && pages == old(pages)
        invariant i < |blocks| && blocks[i].addr == node && blocks[i].free
        invariant coalesced ==> Coalesced(blocks, start, i) == Coalesced(old(blocks), start, at)
        invariant !coalesced ==> blocks == Coalesced(old(blocks), start, at)
        decreases |blocks|, coalesced
      {
        ghost var bs := blocks;
        var temp := mem[node].physPrev;
        NeighbourFacts(Now(), i, {node});
        coalesced := DoCoalesce(mem[node].physPrev, node, i - 1, node);
        if coalesced {
          PairJoins(bs, start, i - 1);
          node, i := temp, i - 1;
          NeighbourFacts(Now(), i, {node});
        }
        bs := blocks;
        var again := DoCoalesce(node, mem[node].physNext, i, node);
        if again {
          PairJoins(bs, start, i);
        }
        coalesced := coalesced || again;
      }
    }

    // c4a_alloc
    method Alloc(size: nat) returns (p: nat, ghost i: nat, ghost bucket: nat)
      requires Valid() && size + HEADER < WORD
      modifies this, buckets
      ensures Valid()
      ensures p == NULL <==> size + HEADER > CHUNK
      ensures p == NULL ==> Now() == old(Now())
      ensures p != NULL ==> MIN_BUCKET <= bucket <= MAX_BUCKET && BucketFor(size, bucket)
      ensures p != NULL ==>
                var bs := Supply(old(blocks), old(Now().End()), bucket);
                && Fits(bs, i, bucket) && blocks == Allocated(bs, i, bucket)
                && p == bs[i].addr + HEADER && p + size <= bs[i].addr + Pow2(bucket)
      ensures p != NULL ==>
                && pages == old(pages) + (if Supplies(old(blocks), bucket) then 0 else CHUNK / PAGE_SIZE)
                && Used(blocks) == Used(old(blocks)) + {(p - HEADER, bucket)}
    {
      hide Inv, Supply, Supplies, Fits, Spilled, Maximal, Used, Pow2, Allocated;
      var index := BucketIndex(size);
      BucketChosen(size, index);
      bucket, i := index, 0;
      if index > MAX_BUCKET {
        return NULL, 0, bucket;
      }
      ghost var s := Now();
      var node;
      node, i := GetNodeFromBucket(index);
      TakeStep(s, Now(), i, index);
      mem := mem[node := mem[node].(status := USED)];
      blocks := blocks[i := blocks[i].(free := false)];
      p := node + HEADER;
    }

    // c4a_free
    method Release(p: nat, ghost i: nat) returns (ghost w: seq<bool>)
      requires Valid() && i < |blocks| && p == blocks[i].addr + HEADER
      modifies this, buckets
      ensures Valid()
      ensures old(blocks)[i].free ==> Now() == old(Now())
      ensures !old(blocks)[i].free ==>
                && i < |old(blocks)| && blocks == Freed(old(blocks), start, i) && pages == old(pages)
                && Used(blocks) == Used(old(blocks)) - {(p - HEADER, old(blocks)[i].bucket)}
      ensures !old(blocks)[i].free ==>
                var f := WithFree(old(blocks), i);
                && InRange(f, i, w) && Lawful(f, start, i, w) && Finished(f, start, i, w)
                && blocks == Gathered(f, i, w) && Absorbs(old(blocks), start, i, blocks)
    {
      hide Inv, Maximal, Used, Coalesced, Freed, InRange, Lawful, Finished, Gathered, Absorbs;
      var node := p - HEADER;
      w := [];
      HeaderOf(Now(), i, {});
      if mem[node].status != USED {
        return;
      }
      ghost var s := Now();
      GiveBackStep(s, i);
      w := GiveBackCourse(s, i);
      mem := mem[node := mem[node].(status := FREE)];
      blocks := blocks[i := blocks[i].(free := true)];
      mem := mem[node := mem[node].(next := NULL)];
      mem := mem[node := mem[node].(previous := NULL)];
      assert mem == Marked(s, i, FREE).mem[node := Marked(s, i, FREE).mem[node].(next := NULL, previous := NULL)];
      ghost var j;
      node, j := Coalesce(node, i);
      HeaderOf(Now(), j, {node});
      assert blocks[j] in blocks;
      InsertBlock(mem[node].bucket, node, {node});
      assert {node} - {node} == {};
    }
  }

  // From the state before to the one with the block for the request at hand but not yet marked.
  lemma {:induction false} TakeStep(s: State, t: State, i: nat, index: nat)
    requires Inv(s, {}) && Maximal(s.blocks, s.start) && MIN_BUCKET <= index
    requires var bs := Supply(s.blocks, s.End(), index);
             && Fits(bs, i, index) && t.blocks == Spilled(bs, i, index)
             && Inv(t, {bs[i].addr})
    ensures var bs := Supply(s.blocks, s.End(), index);
            && i < |t.blocks| && t.blocks[i].addr == bs[i].addr && bs[i].addr in t.mem
            && i < |bs| && index <= bs[i].bucket && Marked(t, i, USED).blocks == Allocated(bs, i, index)
            && Inv(Marked(t, i, USED), {}) && Maximal(Allocated(bs, i, index), s.start)
            && Used(Allocated(bs, i, index)) == Used(s.blocks) + {(bs[i].addr, index)}
  {
    var bs := Supply(s.blocks, s.End(), index);
    SupplyKeeps(s, index);
    SpilledElements(bs, i, index);
    hide Supply, Inv, Maximal, Used, Tiled, Spilled;
    AllocatedKeeps(bs, s.start, s.End() + if Supplies(s.blocks, index) then 0 else CHUNK, i, index);
    MarkKeeps(t, i, USED, {bs[i].addr});
    assert {bs[i].addr} - {bs[i].addr} == {};
  }

  lemma HeaderOf(s: State, i: nat, loose: set<nat>)
    requires Inv(s, loose) && i < |s.blocks|
    ensures s.blocks[i].addr in s.mem && s.mem[s.blocks[i].addr].bucket == s.blocks[i].bucket
    ensures s.mem[s.blocks[i].addr].status == USED <==> !s.blocks[i].free
  {
    BlockFacts(s, s.blocks[i]);
  }

  lemma {:induction false} GiveBackStep(s: State, i: nat)
    requires Inv(s, {}) && Maximal(s.blocks, s.start) && i < |s.blocks| && !s.blocks[i].free
    ensures s.blocks[i].addr in s.mem
    ensures var t, a := Marked(s, i, FREE), s.blocks[i].addr;
            Inv(t.(mem := t.mem[a := t.mem[a].(next := NULL, previous := NULL)]), {a})
    ensures Freed(s.blocks, s.start, i) == Coalesced(s.blocks[i := s.blocks[i].(free := true)], s.start, i)
    ensures Maximal(Freed(s.blocks, s.start, i), s.start)
    ensures Used(Freed(s.blocks, s.start, i)) == Used(s.blocks) - {(s.blocks[i].addr, s.blocks[i].bucket)}
  {
    FreedKeeps(s.blocks, s.start, s.End(), i);
    hide Maximal, Used, Tiled, Coalesced;
    MarkKeeps(s, i, FREE, {});
    hide Inv;
    assert {} + {s.blocks[i].addr} == {s.blocks[i].addr};
    ClearKeeps(Marked(s, i, FREE), s.blocks[i].addr, {s.blocks[i].addr});
  }

  lemma {:induction false} GiveBackCourse(s: State, i: nat) returns (w: seq<bool>)
    requires Inv(s, {}) && Maximal(s.blocks, s.start) && i < |s.blocks| && !s.blocks[i].free
    ensures var f := WithFree(s.blocks, i);
            && InRange(f, i, w) && Lawful(f, s.start, i, w) && Finished(f, s.start, i, w)
            && Freed(s.blocks, s.start, i) == Gathered(f, i, w)
    ensures Absorbs(s.blocks, s.start, i, Freed(s.blocks, s.start, i))
  {
    hide Maximal, Tiled, Coalesced, Absorbs, Lawful, Finished, InRange, Gathered;
    w := Course(WithFree(s.blocks, i), s.start, i);
    FreedAbsorbs(s.blocks, s.start, s.End(), i);
  }

  // Growing keeps everything the blocks had.
  lemma SupplyKeeps(s: State, index: nat)
    requires Inv(s, {}) && Maximal(s.blocks, s.start)
    ensures var bs := Supply(s.blocks, s.End(), index);
            && Tiled(bs, s.start, s.End() + if Supplies(s.blocks, index) then 0 else CHUNK)
            && Maximal(bs, s.start) && Used(bs) == Used(s.blocks)
  {
    GrownTiles(s.blocks, s.start, s.End());
    GrownKeeps(s.blocks, s.start, s.End());
    hide Tiled, Maximal, Used, Supplies;
  }

  lemma {:induction false} BucketChosen(size: nat, index: nat)
    requires size + HEADER < WORD && BucketFor(size, index)
    ensures MIN_BUCKET <= index && size + HEADER <= Pow2(index)
    ensures index > MAX_BUCKET <==> size + HEADER > CHUNK
  {
    BucketFits(size, index);
    Pow2Values();
    if index > MAX_BUCKET { Pow2Mono(MAX_BUCKET, index - 1); } else { Pow2Mono(index, MAX_BUCKET); }
  }

  // What the headers of two linked blocks say.
  lemma PairFacts(s: State, i: int, loose: set<nat>)
    requires Inv(s, loose) && Linked(s.blocks, s.start, i)
    ensures 0 <= i && i + 1 < |s.blocks|
    ensures forall h | h == s.blocks[i] || h == s.blocks[i + 1] ::
              && h in s.blocks && h.addr in s.mem
              && (s.mem[h.addr].status == FREE <==> h.free) && s.mem[h.addr].bucket == h.bucket
    ensures s.blocks[i].addr < s.blocks[i + 1].addr
  {
    BlockFacts(s, s.blocks[i]);
    BlockFacts(s, s.blocks[i + 1]);
    AddressOrder(s.blocks, s.start, s.End(), i, i + 1);
  }

  // Where the physical links of a block lead.
  lemma NeighbourFacts(s: State, i: nat, loose: set<nat>)
    requires Inv(s, loose) && i < |s.blocks|
    ensures var a := s.blocks[i].addr;
            && a in s.mem && a != NULL
            && (s.mem[a].physPrev != NULL <==> Linked(s.blocks, s.start, i - 1))
            && (s.mem[a].physNext != NULL <==> Linked(s.blocks, s.start, i))
    ensures Linked(s.blocks, s.start, i) ==> i + 1 < |s.blocks| && s.blocks[i + 1].addr == s.mem[s.blocks[i].addr].physNext
    ensures Linked(s.blocks, s.start, i - 1) ==> i > 0 && s.blocks[i - 1].addr == s.mem[s.blocks[i].addr].physPrev
  {
    hide Chunk, Pow2, Threaded, Filed, Shape, Tiled, Sound;
    var bs := s.blocks;
    ShapeAt(s, i);
    if i > 0 { ShapeAt(s, i - 1); }
    if i + 1 < |bs| { ShapeAt(s, i + 1); }
  }

  // What joining a pair leaves in its place
  lemma PairJoins(bs: seq<HBlock>, start: nat, j: int)
    requires CanJoin(bs, start, j)
    ensures Linked(bs, start, j) && bs[j].free
    ensures |Joined(bs, j)| > j && Joined(bs, j)[j].free && Joined(bs, j)[j].addr == bs[j].addr
  {
    hide Chunk;
  }

  lemma NothingIn(s: State, index: nat)
    requires Inv(s, {}) && index < BUCKETS && s.lists[index] == []
    ensures forall h | h in s.blocks && h.free :: h.bucket != index
  {
    EmptyBucket(s, index);
    forall h | h in s.blocks && h.free
      ensures h.bucket != index
    {
      var k :| 0 <= k < |s.blocks| && s.blocks[k] == h;
    }
  }

  lemma HeadSupplies(s: State, index: nat, k: nat)
    requires Inv(s, {}) && index <= k < BUCKETS && s.lists[k] != []
    ensures Supplies(s.blocks, index)
  {
    hide Shape, ThreadedAt;
    assert HBlock(s.lists[k][0], k, true) in s.blocks;
  }

  lemma NoneSupplies(s: State, index: nat)
    requires Inv(s, {}) && forall h | h in s.blocks && h.free :: !(index <= h.bucket < BUCKETS)
    ensures !Supplies(s.blocks, index)
  {
    forall k | 0 <= k < |s.blocks| && s.blocks[k].free
      ensures s.blocks[k].bucket < index
    {
      BlockFacts(s, s.blocks[k]);
    }
  }

  // With nothing in one bucket, the next bucket up has the same supply.
  lemma SupplyAbove(bs: seq<HBlock>, end: nat, index: nat)
    requires index <= MAX_BUCKET && forall h | h in bs && h.free :: h.bucket != index
    ensures Supplies(bs, index) <==> Supplies(bs, index + 1)
    ensures index < MAX_BUCKET ==> forall h | h in Supply(bs, end, index) && h.free :: h.bucket != index
  {
    if Supplies(bs, index) {
      var k :| 0 <= k < |bs| && bs[k].free && bs[k].bucket >= index;
      assert bs[k] in bs;
    }
  }

  lemma FoundFits(bs: seq<HBlock>, end: nat, index: nat, i: nat)
    requires i < |bs| && bs[i].free && bs[i].bucket == index
    ensures Supplies(bs, index) && Supply(bs, end, index) == bs && Fits(bs, i, index) && Spilled(bs, i, index) == bs
  {
  }

  // The first bucket above an empty one holds the smallest block that is large enough.
  lemma {:induction false} SupplyFits(before: seq<HBlock>, end: nat, index: nat, next: nat, i: nat)
    requires index <= next <= MAX_BUCKET && forall h | h in before && h.free :: h.bucket != index
    requires forall h | h in Supply(before, end, index + 1) && h.free :: !(index + 1 <= h.bucket < next)
    requires var bs := Supply(before, end, index + 1); i < |bs| && bs[i].free && bs[i].bucket == next
    ensures Supply(before, end, index + 1) == Supply(before, end, index)
    ensures Supplies(before, index) <==> Supplies(before, index + 1)
    ensures var bs := Supply(before, end, index);
            Fits(bs, i, index) && HBlock(bs[i].addr, index, true) in Spilled(bs, i, index)
  {
    SupplyAbove(before, end, index);
    var bs := Supply(before, end, index);
    SpilledElements(bs, i, index);
    hide Supply, Spilled, Supplies;
    assert Spilled(bs, i, index)[i] in Spilled(bs, i, index);
    forall k | 0 <= k < |bs| && bs[k].free
      ensures !(index <= bs[k].bucket < next)
    {
      assert bs[k] in bs;
    }
  }

  lemma InvThreaded(s: State, loose: set<nat>)
    requires Inv(s, loose)
    ensures Threaded(s)
  {
  }

  lemma HeadInMem(s: State, b: nat)
    requires Threaded(s) && b < BUCKETS
    ensures s.heads[b] == First(s.lists[b])
    ensures s.heads[b] != NULL ==> s.heads[b] in s.mem && s.lists[b] != []
    ensures s.heads[b] == NULL ==> s.lists[b] == []
  {
    assert ThreadedAt(s, b);
    if s.lists[b] != [] { assert Member(s.mem, s.lists[b], 0); }
  }

  // The block is the head of its list exactly when it has no predecessor.
  lemma {:induction false} HeadInList(s: State, b: nat, k: nat)
    requires Threaded(s) && b < BUCKETS && k < |s.lists[b]|
    ensures var a := s.lists[b][k];
            && a in s.mem && (s.heads[b] == a <==> k == 0)
            && First(Removed(s.lists[b], k)) == (if k == 0 then s.mem[a].next else s.heads[b])
            && (s.mem[a].previous != NULL ==> s.mem[a].previous in s.mem && s.mem[a].previous != a)
            && (s.mem[a].next != NULL ==> s.mem[a].next in s.mem && s.mem[a].next != a && s.mem[a].next != s.mem[a].previous)
  {
    var xs := s.lists[b];
    assert ThreadedAt(s, b) && Member(s.mem, xs, k);
    UnlinkedApart(s.mem, xs, k);
    if k > 0 {
      DListDistinct(s.mem, xs, 0, k);
      assert Member(s.mem, xs, k - 1);
      assert Removed(xs, k)[0] == xs[0];
    } else if |xs| > 1 {
      assert Removed(xs, k)[0] == xs[1];
    }
    if k + 1 < |xs| { assert Member(s.mem, xs, k + 1); }
  }
}

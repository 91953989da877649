/** The headers of the c4alloc heap in memory: the physical links between neighbouring blocks and
    one doubly linked list of free blocks for each bucket. */
module HeapMemory {
  import opened Common
  import opened HeapBlocks

  const BUCKETS := MAX_BUCKET + 1
  const NULL := 0

  datatype Status = FREE | USED

  datatype Node = Node(previous: nat, next: nat, physNext: nat, physPrev: nat, status: Status, bucket: nat)

  type Memory = map<nat, Node>

  /** The heap together with what it holds: the blocks in address order and the free lists. */
  datatype State = State(start: nat, pages: nat, mem: Memory, heads: seq<nat>, blocks: seq<HBlock>, lists: seq<seq<nat>>) {
    function End(): nat {
      start + pages * PAGE_SIZE
    }
  }

  // ----- Physical neighbours -----

  ghost function PhysNext(bs: seq<HBlock>, start: nat, i: nat): nat {
    if Linked(bs, start, i) then bs[i + 1].addr else NULL
  }

  ghost function PhysPrev(bs: seq<HBlock>, start: nat, i: nat): nat {
    if Linked(bs, start, i - 1) then bs[i - 1].addr else NULL
  }

  // The header at a block's address describes it and points to its neighbours in the chunk.
  ghost predicate Headed(m: Memory, bs: seq<HBlock>, start: nat, i: nat)
    requires i < |bs|
  {
    var a := bs[i].addr;
    && a in m && a != NULL
    && m[a].bucket == bs[i].bucket && (m[a].status == FREE <==> bs[i].free)
    && m[a].physNext == PhysNext(bs, start, i) && m[a].physPrev == PhysPrev(bs, start, i)
  }

  ghost predicate AllHeaded(m: Memory, bs: seq<HBlock>, start: nat) {
    forall i | 0 <= i < |bs| :: Headed(m, bs, start, i)
  }

  ghost predicate Shape(s: State) {
    && s.start > 0 && s.pages * PAGE_SIZE % CHUNK == 0
    && Tiled(s.blocks, s.start, s.End())
    && AllHeaded(s.mem, s.blocks, s.start)
  }

  // ----- Free lists -----

  function NextIn(xs: seq<nat>, k: nat): nat {
    if k + 1 < |xs| then xs[k + 1] else NULL
  }

  function PreviousIn(xs: seq<nat>, k: nat): nat {
    if 0 < k <= |xs| then xs[k - 1] else NULL
  }

  function First(xs: seq<nat>): nat {
    if xs == [] then NULL else xs[0]
  }

  ghost predicate Member(m: Memory, xs: seq<nat>, k: nat)
    requires k < |xs|
  {
    xs[k] in m && xs[k] != NULL && m[xs[k]].next == NextIn(xs, k) && m[xs[k]].previous == PreviousIn(xs, k)
  }

  ghost predicate DList(m: Memory, xs: seq<nat>) {
    forall k | 0 <= k < |xs| :: Member(m, xs, k)
  }

  ghost predicate ThreadedAt(s: State, b: nat)
    requires b < |s.heads| && b < |s.lists|
  {
    DList(s.mem, s.lists[b]) && s.heads[b] == First(s.lists[b])
  }

  ghost predicate Threaded(s: State) {
    && |s.heads| == |s.lists| == BUCKETS
    && forall b | 0 <= b < BUCKETS :: ThreadedAt(s, b)
  }

  // Each list holds free blocks of its bucket only, and all of them but the loose ones.
  ghost predicate Filed(bs: seq<HBlock>, lists: seq<seq<nat>>, loose: set<nat>) {
    && (forall b, k | 0 <= b < |lists| && 0 <= k < |lists[b]| :: HBlock(lists[b][k], b, true) in bs && lists[b][k] !in loose)
    && (forall h | h in bs :: h.free && h.addr !in loose ==> h.bucket < |lists| && h.addr in lists[h.bucket])
  }

  ghost predicate Inv(s: State, loose: set<nat>) {
    Shape(s) && Threaded(s) && Filed(s.blocks, s.lists, loose)
  }

  // ----- Addresses -----

  ghost predicate Ascending(bs: seq<HBlock>) {
    forall i, j | 0 <= i < j < |bs| :: bs[i].addr < bs[j].addr
  }

  lemma {:induction false} TiledAscends(bs: seq<HBlock>, start: nat, end: nat)
    requires Tiled(bs, start, end)
    ensures Ascending(bs)
  {
    forall i, j | 0 <= i < j < |bs|
      ensures bs[i].addr < bs[j].addr
    {
      AddressOrder(bs, start, end, i, j);
    }
  }

  // An address belongs to one block.
  lemma {:induction false} OneAt(bs: seq<HBlock>, g: HBlock, h: HBlock)
    requires Ascending(bs) && g in bs && h in bs && g.addr == h.addr
    ensures g == h
  {
    var i :| 0 <= i < |bs| && bs[i] == g;
    var j :| 0 <= j < |bs| && bs[j] == h;
    assert !(i < j) && !(j < i);
  }

  lemma BlockFacts(s: State, h: HBlock)
    requires Shape(s) && h in s.blocks
    ensures h.addr in s.mem && h.addr != NULL && s.mem[h.addr].bucket == h.bucket && (s.mem[h.addr].status == FREE <==> h.free)
    ensures MIN_BUCKET <= h.bucket <= MAX_BUCKET
  {
    var i :| 0 <= i < |s.blocks| && s.blocks[i] == h;
    assert Headed(s.mem, s.blocks, s.start, i);
  }

  // ----- Frames -----

  // Headers differ at most in their list links.
  ghost predicate SameBlocks(m: Memory, n: Memory) {
    && m.Keys == n.Keys
    && forall a | a in m :: SameHeader(m[a], n[a])
  }

  ghost predicate SameHeader(m: Node, n: Node) {
    n == m.(next := n.next, previous := n.previous)
  }

  lemma {:induction false} HeadedFrame(m: Memory, n: Memory, bs: seq<HBlock>, start: nat)
    requires AllHeaded(m, bs, start) && SameBlocks(m, n)
    ensures AllHeaded(n, bs, start)
  {
    hide PhysNext, PhysPrev;
    forall i | 0 <= i < |bs|
      ensures Headed(n, bs, start, i)
    {
      assert Headed(m, bs, start, i);
    }
  }

  ghost predicate SameLinks(m: Memory, n: Memory, a: nat) {
    a in m ==> a in n && n[a].next == m[a].next && n[a].previous == m[a].previous
  }

  lemma {:induction false} DListFrame(m: Memory, n: Memory, xs: seq<nat>)
    requires DList(m, xs) && forall k | 0 <= k < |xs| :: SameLinks(m, n, xs[k])
    ensures DList(n, xs)
  {
    forall k | 0 <= k < |xs|
      ensures Member(n, xs, k)
    {
      assert Member(m, xs, k) && SameLinks(m, n, xs[k]);
    }
  }

  // A list that ends and whose links agree in both directions repeats nothing.
  lemma {:induction false} DListDistinct(m: Memory, xs: seq<nat>, i: nat, j: nat)
    requires DList(m, xs) && i < j < |xs|
    ensures xs[i] != xs[j]
  {
    assert Member(m, xs, i) && Member(m, xs, j);
    if i > 0 {
      DListDistinct(m, xs, i - 1, j - 1);
    } else {
      assert Member(m, xs, j - 1);
    }
  }

  // Every free block that is not loose is in one list, once.
  lemma {:induction false} FiledOnce(s: State, loose: set<nat>, h: HBlock)
    requires Inv(s, loose) && h in s.blocks && h.free && h.addr !in loose
    ensures exists k :: h.bucket < BUCKETS && 0 <= k < |s.lists[h.bucket]| && s.lists[h.bucket][k] == h.addr
    ensures forall b, k, l | 0 <= b < BUCKETS && 0 <= k < |s.lists[b]| && 0 <= l < |s.lists[h.bucket]|
                             && s.lists[b][k] == h.addr == s.lists[h.bucket][l] :: b == h.bucket && k == l
  {
    TiledAscends(s.blocks, s.start, s.End());
    hide Shape, DList;
    forall b, k, l | 0 <= b < BUCKETS && 0 <= k < |s.lists[b]| && 0 <= l < |s.lists[h.bucket]|
                     && s.lists[b][k] == h.addr == s.lists[h.bucket][l]
      ensures b == h.bucket && k == l
    {
      OneAt(s.blocks, h, HBlock(s.lists[b][k], b, true));
      assert ThreadedAt(s, b);
      if k < l { DListDistinct(s.mem, s.lists[b], k, l); }
      if l < k { DListDistinct(s.mem, s.lists[b], l, k); }
    }
  }

  // ----- c4a_bucket_insert -----

  function PushedMem(m: Memory, head: nat, a: nat): Memory
    requires a in m
  {
    var m' := if head != NULL && head in m then m[head := m[head].(previous := a)] else m;
    var m'' := m'[a := m'[a].(next := head)];
    m''[a := m''[a].(previous := NULL)]
  }

  lemma {:induction false} PushedHeaders(m: Memory, head: nat, a: nat)
    requires a in m && head != a && (head == NULL || head in m)
    ensures SameBlocks(m, PushedMem(m, head, a))
    ensures var n := PushedMem(m, head, a);
            && n[a] == m[a].(next := head, previous := NULL)
            && (head != NULL ==> n[head] == m[head].(previous := a))
            && (forall x | x in m && x != a && (x != head || head == NULL) :: n[x] == m[x])
  {
  }

  lemma {:induction false} PushedList(m: Memory, xs: seq<nat>, a: nat)
    requires DList(m, xs) && a in m && a != NULL && a !in xs
    ensures DList(PushedMem(m, First(xs), a), [a] + xs)
    ensures SameBlocks(m, PushedMem(m, First(xs), a))
  {
    var n, ys := PushedMem(m, First(xs), a), [a] + xs;
    if xs != [] { assert Member(m, xs, 0); }
    PushedHeaders(m, First(xs), a);
    hide PushedMem, SameBlocks;
    forall k | 0 <= k < |ys|
      ensures Member(n, ys, k)
    {
      if k > 0 {
        assert ys[k] == xs[k - 1] && Member(m, xs, k - 1);
        if k > 1 { DListDistinct(m, xs, 0, k - 1); }
      }
    }
  }

  ghost function Pushed(s: State, a: nat, b: nat): State
    requires a in s.mem && b < |s.heads| && b < |s.lists|
  {
    s.(mem := PushedMem(s.mem, s.heads[b], a), heads := s.heads[b := a], lists := s.lists[b := [a] + s.lists[b]])
  }

  // A loose block goes to the front of its bucket's list.
  lemma {:induction false} PushKeeps(s: State, a: nat, b: nat, loose: set<nat>)
    requires Inv(s, loose) && a in loose && HBlock(a, b, true) in s.blocks
    ensures b < BUCKETS && a in s.mem && Inv(Pushed(s, a, b), loose - {a})
  {
    BlockFacts(s, HBlock(a, b, true));
    var t := Pushed(s, a, b);
    assert a !in s.lists[b];
    assert ThreadedAt(s, b);
    PushedList(s.mem, s.lists[b], a);
    HeadedFrame(s.mem, t.mem, s.blocks, s.start);
    TiledAscends(s.blocks, s.start, s.End());
    assert Shape(t);
    PushFiled(s, a, b, loose);
    hide Shape;
    forall c | 0 <= c < BUCKETS
      ensures ThreadedAt(t, c)
    {
      PushFrame(s, a, b, loose, c);
    }
  }

  lemma {:induction false} PushFiled(s: State, a: nat, b: nat, loose: set<nat>)
    requires Filed(s.blocks, s.lists, loose) && a in loose && HBlock(a, b, true) in s.blocks && Ascending(s.blocks)
    requires b < |s.lists|
    ensures Filed(s.blocks, s.lists[b := [a] + s.lists[b]], loose - {a})
  {
    var lists, out := s.lists[b := [a] + s.lists[b]], loose - {a};
    forall c, k | 0 <= c < |lists| && 0 <= k < |lists[c]|
      ensures HBlock(lists[c][k], c, true) in s.blocks && lists[c][k] !in out
    {
      if c == b && k > 0 { assert lists[c][k] == s.lists[c][k - 1]; }
    }
    forall h | h in s.blocks && h.free && h.addr !in out
      ensures h.bucket < |lists| && h.addr in lists[h.bucket]
    {
      if h.addr == a {
        OneAt(s.blocks, h, HBlock(a, b, true));
        assert lists[b][0] == a;
      }
    }
  }

  lemma {:induction false} PushFrame(s: State, a: nat, b: nat, loose: set<nat>, c: nat)
    requires Threaded(s) && Filed(s.blocks, s.lists, loose) && Ascending(s.blocks)
    requires a in loose && a in s.mem && a != NULL && b < BUCKETS && c < BUCKETS
    requires DList(PushedMem(s.mem, First(s.lists[b]), a), [a] + s.lists[b])
    ensures ThreadedAt(Pushed(s, a, b), c)
  {
    var t := Pushed(s, a, b);
    assert ThreadedAt(s, b) && ThreadedAt(s, c);
    if c != b {
      if s.lists[b] != [] { assert Member(s.mem, s.lists[b], 0); }
      PushedHeaders(s.mem, s.heads[b], a);
      hide PushedMem, DList, SameBlocks;
      forall k | 0 <= k < |s.lists[c]|
        ensures SameLinks(s.mem, t.mem, s.lists[c][k])
      {
        if s.lists[b] != [] && s.lists[c][k] == s.lists[b][0] {
          OneAt(s.blocks, HBlock(s.lists[c][k], c, true), HBlock(s.lists[b][0], b, true));
        }
      }
      DListFrame(s.mem, t.mem, s.lists[c]);
    }
  }

  // ----- c4a_node_unlink -----

  function UnlinkedMem(m: Memory, a: nat): Memory
    requires a in m
  {
    var p, n := m[a].previous, m[a].next;
    var m1 := if p != NULL && p in m then m[p := m[p].(next := n)] else m;
    var m2 := if n != NULL && n in m1 then m1[n := m1[n].(previous := p)] else m1;
    m2[a := m2[a].(previous := NULL, next := NULL)]
  }

  lemma {:induction false} UnlinkedHeaders(m: Memory, a: nat)
    requires a in m && m[a].previous != a && m[a].next != a
    requires m[a].previous == NULL || m[a].previous != m[a].next
    ensures SameBlocks(m, UnlinkedMem(m, a))
    ensures var n := UnlinkedMem(m, a);
            && n[a] == m[a].(previous := NULL, next := NULL)
            && (forall x | x in m && x != a && x != NULL ::
                  n[x] == if x == m[a].previous then m[x].(next := m[a].next)
                  else if x == m[a].next then m[x].(previous := m[a].previous) else m[x])
  {
  }

  lemma {:induction false} UnlinkedList(m: Memory, xs: seq<nat>, k: nat)
    requires DList(m, xs) && k < |xs|
    ensures xs[k] in m && xs[k] !in Removed(xs, k)
    ensures DList(UnlinkedMem(m, xs[k]), Removed(xs, k))
    ensures SameBlocks(m, UnlinkedMem(m, xs[k]))
  {
    assert Member(m, xs, k);
    var n, ys := UnlinkedMem(m, xs[k]), Removed(xs, k);
    UnlinkedApart(m, xs, k);
    UnlinkedHeaders(m, xs[k]);
    hide UnlinkedMem, SameBlocks;
    forall i | 0 <= i < |ys|
      ensures Member(n, ys, i) && ys[i] != xs[k]
    {
      UnlinkedMember(m, xs, k, i);
    }
  }

  lemma {:induction false} UnlinkedApart(m: Memory, xs: seq<nat>, k: nat)
    requires DList(m, xs) && k < |xs|
    ensures xs[k] in m && m[xs[k]].previous != xs[k] && m[xs[k]].next != xs[k]
    ensures m[xs[k]].previous == NULL || m[xs[k]].previous != m[xs[k]].next
  {
    assert Member(m, xs, k);
    if k > 0 {
      DListDistinct(m, xs, k - 1, k);
      assert Member(m, xs, k - 1);
    }
    if k + 1 < |xs| { DListDistinct(m, xs, k, k + 1); }
    if k > 0 && k + 1 < |xs| { DListDistinct(m, xs, k - 1, k + 1); }
  }

  lemma {:induction false} UnlinkedMember(m: Memory, xs: seq<nat>, k: nat, i: nat)
    requires DList(m, xs) && k < |xs| && i < |xs| - 1
    ensures xs[k] in m && Member(UnlinkedMem(m, xs[k]), Removed(xs, k), i) && Removed(xs, k)[i] != xs[k]
  {
    UnlinkedApart(m, xs, k);
    UnlinkedHeaders(m, xs[k]);
    hide UnlinkedMem, SameBlocks;
    var j := if i < k then i else i + 1;
    assert Removed(xs, k)[i] == xs[j];
    assert Member(m, xs, k) && Member(m, xs, j);
    if j < k { DListDistinct(m, xs, j, k); } else { DListDistinct(m, xs, k, j); }
    if j + 1 < k { DListDistinct(m, xs, j, k - 1); }
    if k + 1 < j { DListDistinct(m, xs, k + 1, j); }
    if j < k && k + 1 < |xs| { DListDistinct(m, xs, j, k + 1); }
    if k < j && k > 0 { DListDistinct(m, xs, k - 1, j); }
  }

  ghost function Unlinked(s: State, b: nat, k: nat): State
    requires b < |s.heads| && b < |s.lists| && k < |s.lists[b]| && s.lists[b][k] in s.mem
  {
    s.(mem := UnlinkedMem(s.mem, s.lists[b][k]),
    heads := s.heads[b := First(Removed(s.lists[b], k))], lists := s.lists[b := Removed(s.lists[b], k)])
  }

  // A block taken out of its list is loose, with its links cleared.
  lemma {:induction false} UnlinkKeeps(s: State, b: nat, k: nat, loose: set<nat>)
    requires Inv(s, loose) && b < BUCKETS && k < |s.lists[b]|
    ensures s.lists[b][k] in s.mem && s.lists[b][k] !in loose
    ensures Inv(Unlinked(s, b, k), loose + {s.lists[b][k]})
  {
    assert ThreadedAt(s, b);
    UnlinkedList(s.mem, s.lists[b], k);
    var t := Unlinked(s, b, k);
    HeadedFrame(s.mem, t.mem, s.blocks, s.start);
    TiledAscends(s.blocks, s.start, s.End());
    assert Shape(t);
    hide Shape, UnlinkedMem;
    UnlinkFiled(s.blocks, s.lists, b, k, loose);
    forall c | 0 <= c < BUCKETS
      ensures ThreadedAt(t, c)
    {
      UnlinkFrame(s, b, k, loose, c);
    }
  }

  lemma {:induction false} UnlinkFiled(bs: seq<HBlock>, lists: seq<seq<nat>>, b: nat, k: nat, loose: set<nat>)
    requires Filed(bs, lists, loose) && Ascending(bs) && b < |lists| && k < |lists[b]|
    requires lists[b][k] !in Removed(lists[b], k)
    ensures Filed(bs, lists[b := Removed(lists[b], k)], loose + {lists[b][k]})
  {
    var a := lists[b][k];
    var after, out := lists[b := Removed(lists[b], k)], loose + {a};
    forall c, j | 0 <= c < |after| && 0 <= j < |after[c]|
      ensures HBlock(after[c][j], c, true) in bs && after[c][j] !in out
    {
      if c == b {
        assert after[c][j] in Removed(lists[b], k);
        assert after[c][j] == lists[c][if j < k then j else j + 1];
      } else {
        ApartLists(bs, lists, loose, b, c, j);
      }
    }
    forall h | h in bs && h.free && h.addr !in out
      ensures h.bucket < |after| && h.addr in after[h.bucket]
    {
      if h.bucket == b {
        var j :| 0 <= j < |lists[b]| && lists[b][j] == h.addr;
        assert after[b][if j < k then j else j - 1] == h.addr;
      }
    }
  }

  lemma {:induction false} UnlinkFrame(s: State, b: nat, k: nat, loose: set<nat>, c: nat)
    requires Threaded(s) && Filed(s.blocks, s.lists, loose) && Ascending(s.blocks)
    requires b < BUCKETS && k < |s.lists[b]| && c < BUCKETS && s.lists[b][k] in s.mem
    requires DList(UnlinkedMem(s.mem, s.lists[b][k]), Removed(s.lists[b], k))
    ensures ThreadedAt(Unlinked(s, b, k), c)
  {
    var t, xs := Unlinked(s, b, k), s.lists[b];
    assert ThreadedAt(s, b) && ThreadedAt(s, c);
    if c != b {
      UnlinkedApart(s.mem, xs, k);
      UnlinkedHeaders(s.mem, xs[k]);
      assert Member(s.mem, xs, k);
      hide UnlinkedMem, SameBlocks, DList;
      forall j | 0 <= j < |s.lists[c]|
        ensures SameLinks(s.mem, t.mem, s.lists[c][j])
      {
        ApartLists(s.blocks, s.lists, loose, b, c, j);
        BlockInMem(s, c, j);
      }
      DListFrame(s.mem, t.mem, s.lists[c]);
    }
  }

  lemma BlockInMem(s: State, c: nat, j: nat)
    requires Threaded(s) && c < BUCKETS && j < |s.lists[c]|
    ensures s.lists[c][j] in s.mem && s.lists[c][j] != NULL
  {
    assert ThreadedAt(s, c);
    assert Member(s.mem, s.lists[c], j);
  }

  lemma {:induction false} ApartLists(bs: seq<HBlock>, lists: seq<seq<nat>>, loose: set<nat>, b: nat, c: nat, j: nat)
    requires Filed(bs, lists, loose) && Ascending(bs) && b < |lists| && c < |lists| && b != c && j < |lists[c]|
    ensures lists[c][j] !in lists[b]
  {
    if lists[c][j] in lists[b] {
      var i :| 0 <= i < |lists[b]| && lists[b][i] == lists[c][j];
      OneAt(bs, HBlock(lists[c][j], c, true), HBlock(lists[b][i], b, true));
    }
  }

  // Unlinking a block that is in no list and has no links changes nothing.
  lemma {:induction false} UnlinkLoose(s: State, h: HBlock, loose: set<nat>)
    requires Inv(s, loose) && h in s.blocks && h.addr in loose
    requires h.addr in s.mem ==> s.mem[h.addr].previous == s.mem[h.addr].next == NULL
    ensures h.addr in s.mem && UnlinkedMem(s.mem, h.addr) == s.mem && h.bucket < BUCKETS && s.heads[h.bucket] != h.addr
  {
    BlockFacts(s, h);
    assert ThreadedAt(s, h.bucket);
  }

  // Taking a block out of its list touches no loose block.
  lemma {:induction false} UnlinkSpares(s: State, b: nat, k: nat, loose: set<nat>)
    requires Inv(s, loose) && b < BUCKETS && k < |s.lists[b]| && s.lists[b][k] in s.mem
    ensures forall x | x in loose && x in s.mem && x != NULL :: x in Unlinked(s, b, k).mem && Unlinked(s, b, k).mem[x] == s.mem[x]
  {
    hide Shape;
    var xs := s.lists[b];
    assert ThreadedAt(s, b) && Member(s.mem, xs, k);
    UnlinkedApart(s.mem, xs, k);
    UnlinkedHeaders(s.mem, xs[k]);
    hide UnlinkedMem, SameBlocks;
  }

  // ----- c4a_split_node -----

  function SplitMem(m: Memory, a: nat): Memory
    requires a in m && m[a].bucket > 0
  {
    var t := a + Pow2(m[a].bucket - 1);
    var m1 := m[a := m[a].(bucket := m[a].bucket - 1)];
    var m2 := m1[t := Node(a, m1[a].next, m1[a].physNext, a, m1[a].status, m1[a].bucket)];
    var m3 := m2[a := m2[a].(next := t)];
    var m4 := m3[a := m3[a].(physNext := t)];
    if m4[t].physNext != NULL && m4[t].physNext in m4 then m4[m4[t].physNext := m4[m4[t].physNext].(physPrev := t)] else m4
  }

  lemma {:induction false} SplitHeaders(m: Memory, a: nat)
    requires a in m && m[a].bucket > 0
    requires m[a].physNext == NULL || (m[a].physNext in m && m[a].physNext > a + Pow2(m[a].bucket - 1))
    requires a != NULL
    ensures var b, n := m[a].bucket - 1, SplitMem(m, a);
            var t := a + Pow2(b);
            && t != a && n.Keys == m.Keys + {t}
            && n[a] == m[a].(bucket := b, next := t, physNext := t)
            && n[t] == Node(a, m[a].next, m[a].physNext, a, m[a].status, b)
            && (m[a].physNext != NULL ==> n[m[a].physNext] == m[m[a].physNext].(physPrev := t))
            && (forall x | x in m && x != a && x != t && x != m[a].physNext :: n[x] == m[x])
            && (forall x | x in m && x != a && x != t :: SameLinks(m, n, x))
  {
  }

  ghost function Split(s: State, i: nat): State
    requires i < |s.blocks| && s.blocks[i].addr in s.mem && s.mem[s.blocks[i].addr].bucket > 0 && s.blocks[i].bucket > 0
  {
    s.(mem := SplitMem(s.mem, s.blocks[i].addr), blocks := Halved(s.blocks, i))
  }

  // The upper half of a block is at no block's address.
  lemma {:induction false} HalfIsNew(bs: seq<HBlock>, start: nat, end: nat, i: nat)
    requires Tiled(bs, start, end) && i < |bs| && bs[i].bucket > MIN_BUCKET
    ensures var t := bs[i].addr + Pow2(bs[i].bucket - 1);
            && (forall j | 0 <= j <= i :: bs[j].addr < t)
            && (forall j | i < j < |bs| :: t < bs[j].addr)
  {
    TiledAscends(bs, start, end);
    forall j | i < j < |bs|
      ensures bs[i].addr + Pow2(bs[i].bucket - 1) < bs[j].addr
    {
      AddressOrder(bs, start, end, i, j);
    }
  }

  // A block's physical links point past its end and before its start.
  lemma {:induction false} LinksPoint(s: State, i: nat)
    requires Shape(s) && i < |s.blocks|
    ensures var a, n := s.blocks[i].addr, PhysNext(s.blocks, s.start, i);
            && a in s.mem && s.mem[a].bucket == s.blocks[i].bucket && s.mem[a].physNext == n && a != NULL
            && (n == NULL || (n in s.mem && n == a + Pow2(s.blocks[i].bucket)))
  {
    assert Headed(s.mem, s.blocks, s.start, i);
    if i + 1 < |s.blocks| { assert Headed(s.mem, s.blocks, s.start, i + 1); }
  }

  lemma {:induction false} HalvedLinks(bs: seq<HBlock>, start: nat, i: nat, k: nat)
    requires i < |bs| && bs[i].bucket > MIN_BUCKET && Sound(bs[i], start) && k <= |bs|
    ensures var cs, t := Halved(bs, i), bs[i].addr + Pow2(bs[i].bucket - 1);
            && PhysNext(cs, start, k) == (if k < i then PhysNext(bs, start, k) else if k == i then t else PhysNext(bs, start, k - 1))
            && PhysPrev(cs, start, k) == (if k <= i then PhysPrev(bs, start, k) else if k == i + 1 then bs[i].addr
                                          else if k == i + 2 && Linked(bs, start, i) then t else PhysPrev(bs, start, k - 1))
  {
    HalvesSound(bs[i], start);
    HalvedElements(bs, i);
    var cs := Halved(bs, i);
    hide Halved, Pow2, Chunk, Sound;
    assert k > i + 1 ==> cs[k] == bs[k - 1];
    assert k >= i + 1 && k + 1 < |cs| ==> cs[k + 1] == bs[k];
    assert k > i + 2 ==> cs[k - 1] == bs[k - 2];
    assert k < i ==> cs[k].addr == bs[k].addr && cs[k + 1].addr == bs[k + 1].addr;
    assert 0 < k <= i ==> cs[k - 1] == bs[k - 1];
  }

  lemma ShapeAt(s: State, i: nat)
    requires Shape(s) && i < |s.blocks|
    ensures Tiled(s.blocks, s.start, s.End()) && Headed(s.mem, s.blocks, s.start, i) && Sound(s.blocks[i], s.start)
  {
  }

  // What splitting the block at a writes: its own header, one at t for the upper half, and the back
  // link of the block at x after it, if there is one.
  ghost predicate Wrote(m: Memory, n: Memory, a: nat, t: nat, x: nat) {
    && a in m && m[a].bucket > 0 && n.Keys == m.Keys + {t} && a != NULL
    && n[a] == m[a].(bucket := m[a].bucket - 1, next := t, physNext := t)
    && n[t] == Node(a, m[a].next, x, a, m[a].status, m[a].bucket - 1)
    && (x != NULL ==> x in m && n[x] == m[x].(physPrev := t))
    && (forall y | y in m && y != a && y != t && y != x :: n[y] == m[y])
    && (forall y | y in m && y != a && y != t :: SameLinks(m, n, y))
  }

  function Upper(b: HBlock): nat
    requires b.bucket > 0
  {
    b.addr + Pow2(b.bucket - 1)
  }

  lemma {:induction false} SplitWrites(s: State, i: nat)
    requires Shape(s) && i < |s.blocks| && s.blocks[i].bucket > MIN_BUCKET
    ensures s.blocks[i].addr in s.mem && s.mem[s.blocks[i].addr].bucket == s.blocks[i].bucket
    ensures Wrote(s.mem, Split(s, i).mem, s.blocks[i].addr, Upper(s.blocks[i]), PhysNext(s.blocks, s.start, i))
  {
    hide Shape, SplitMem, PhysNext, Pow2;
    LinksPoint(s, i);
    Pow2Mono(s.blocks[i].bucket - 1, s.blocks[i].bucket);
    Pow2Positive(s.blocks[i].bucket - 1);
    SplitHeaders(s.mem, s.blocks[i].addr);
  }

  // A block that was not split: only the one right after it has a new physical predecessor.
  lemma {:induction false} SplitOther(m: Memory, n: Memory, bs: seq<HBlock>, start: nat, i: nat, k: nat)
    requires i < |bs| && bs[i].bucket > MIN_BUCKET && Sound(bs[i], start) && k <= |bs| && k != i && k != i + 1
    requires var j, t, x := if k < i then k else k - 1, bs[i].addr + Pow2(bs[i].bucket - 1), PhysNext(bs, start, i);
             && Headed(m, bs, start, j)
             && bs[j].addr in n
             && n[bs[j].addr] == (if j == i + 1 && x != NULL then m[bs[j].addr].(physPrev := t) else m[bs[j].addr])
             && (x != NULL <==> Linked(bs, start, i))
    ensures Headed(n, Halved(bs, i), start, k)
  {
    HalvedElements(bs, i);
    HalvedLinks(bs, start, i, k);
    hide Sound, Halved, Pow2, PhysNext, PhysPrev, Linked;
    assert Halved(bs, i)[k] == bs[if k < i then k else k - 1];
  }

  lemma {:induction false} SplitHalves(s: State, i: nat, k: nat)
    requires Shape(s) && i < |s.blocks| && s.blocks[i].bucket > MIN_BUCKET && (k == i || k == i + 1)
    requires s.blocks[i].addr in s.mem && s.mem[s.blocks[i].addr].bucket == s.blocks[i].bucket
    ensures Headed(Split(s, i).mem, Halved(s.blocks, i), s.start, k)
  {
    hide Shape, Tiled, SplitMem, Halved, Pow2, PhysNext, PhysPrev, Linked, Sound;
    ShapeAt(s, i);
    SplitWrites(s, i);
    HalvedElements(s.blocks, i);
    NextAddress(s.blocks, s.start, s.End(), i, i);
    HalvedLinks(s.blocks, s.start, i, k);
  }

  // The header of a block that is neither the split one nor at the new address
  lemma WroteElsewhere(m: Memory, n: Memory, a: nat, t: nat, x: nat, y: nat)
    requires Wrote(m, n, a, t, x) && y in m && y != a && y != t && y != NULL
    ensures y in n && n[y] == if y == x then m[y].(physPrev := t) else m[y]
  {
  }

  lemma {:induction false} SplitElse(s: State, i: nat, k: nat)
    requires Shape(s) && i < |s.blocks| && s.blocks[i].bucket > MIN_BUCKET && k <= |s.blocks| && k != i && k != i + 1
    requires s.blocks[i].addr in s.mem && s.mem[s.blocks[i].addr].bucket == s.blocks[i].bucket
    ensures Headed(Split(s, i).mem, Halved(s.blocks, i), s.start, k)
  {
    hide Shape, Tiled, SplitMem, Halved, Pow2, PhysNext, PhysPrev, Linked, Headed, Sound, Wrote;
    var bs, j := s.blocks, if k < i then k else k - 1;
    ShapeAt(s, i);
    ShapeAt(s, j);
    SplitWrites(s, i);
    HalfIsNew(bs, s.start, s.End(), i);
    NextAddress(bs, s.start, s.End(), i, j);
    HeadedAddress(s.mem, bs, s.start, j);
    WroteElsewhere(s.mem, Split(s, i).mem, bs[i].addr, Upper(bs[i]), PhysNext(bs, s.start, i), bs[j].addr);
    SplitOther(s.mem, Split(s, i).mem, bs, s.start, i, k);
  }

  lemma {:induction false} SplitLinks(s: State, i: nat, k: nat)
    requires Shape(s) && i < |s.blocks| && s.blocks[i].bucket > MIN_BUCKET && k <= |s.blocks|
    requires s.blocks[i].addr in s.mem && s.mem[s.blocks[i].addr].bucket == s.blocks[i].bucket
    ensures Headed(Split(s, i).mem, Halved(s.blocks, i), s.start, k)
  {
    hide *;
    if k == i || k == i + 1 {
      SplitHalves(s, i, k);
    } else {
      SplitElse(s, i, k);
    }
  }

  lemma HeadedAddress(m: Memory, bs: seq<HBlock>, start: nat, i: nat)
    requires i < |bs| && Headed(m, bs, start, i)
    ensures bs[i].addr in m && bs[i].addr != NULL
  {
  }

  // Only the block after block i has the address of its physical successor.
  lemma {:induction false} NextAddress(bs: seq<HBlock>, start: nat, end: nat, i: nat, j: nat)
    requires Tiled(bs, start, end) && i < |bs| && j < |bs|
    ensures bs[j].addr == bs[i].addr <==> j == i
    ensures PhysNext(bs, start, i) != NULL ==> (bs[j].addr == PhysNext(bs, start, i) <==> j == i + 1)
    ensures PhysNext(bs, start, i) != NULL <==> Linked(bs, start, i)
    ensures Linked(bs, start, i) ==> PhysNext(bs, start, i) == bs[i + 1].addr
  {
    TiledAscends(bs, start, end);
    if i + 1 < |bs| { assert bs[i + 1].addr == bs[i].End(); }
    hide Tiled, Chunk;
  }

  lemma {:induction false} SplitShape(s: State, i: nat)
    requires Shape(s) && i < |s.blocks| && s.blocks[i].bucket > MIN_BUCKET
    ensures s.blocks[i].addr in s.mem && s.mem[s.blocks[i].addr].bucket == s.blocks[i].bucket && Shape(Split(s, i))
  {
    LinksPoint(s, i);
    HalvedTiles(s.blocks, s.start, s.End(), i);
    var t := Split(s, i);
    forall k | 0 <= k < |t.blocks|
      ensures Headed(t.mem, t.blocks, t.start, k)
    {
      SplitLinks(s, i, k);
    }
  }

  lemma {:induction false} HalvedFiled(bs: seq<HBlock>, lists: seq<seq<nat>>, i: nat, loose: set<nat>)
    requires Filed(bs, lists, loose) && i < |bs| && bs[i].addr in loose && bs[i].bucket > 0
    requires forall h | h in bs :: h.addr != bs[i].addr + Pow2(bs[i].bucket - 1)
    ensures Filed(Halved(bs, i), lists, loose + {bs[i].addr + Pow2(bs[i].bucket - 1)})
  {
    var cs, u := Halved(bs, i), bs[i].addr + Pow2(bs[i].bucket - 1);
    HalvedElements(bs, i);
    hide Halved;
    forall h | h in bs && h != bs[i]
      ensures h in cs
    {
      var j :| 0 <= j < |bs| && bs[j] == h;
      assert cs[if j < i then j else j + 1] == h;
    }
    forall h | h in cs
      ensures h in bs || h.addr == u || h.addr == bs[i].addr
    {
      var j :| 0 <= j < |cs| && cs[j] == h;
      assert j > i + 1 ==> h == bs[j - 1];
    }
  }

  lemma {:induction false} SplitThreaded(s: State, i: nat, loose: set<nat>)
    requires Inv(s, loose) && i < |s.blocks| && s.blocks[i].addr in loose && s.blocks[i].bucket > MIN_BUCKET
    ensures s.blocks[i].addr in s.mem && s.mem[s.blocks[i].addr].bucket == s.blocks[i].bucket && Threaded(Split(s, i))
  {
    hide Shape, Tiled, SplitMem, Pow2, Halved, DList, PhysNext;
    ShapeAt(s, i);
    SplitWrites(s, i);
    SplitFresh(s, i);
    var t := Split(s, i);
    assert t.lists == s.lists && t.heads == s.heads;
    forall b | 0 <= b < BUCKETS
      ensures ThreadedAt(t, b)
    {
      assert ThreadedAt(s, b);
      forall k | 0 <= k < |s.lists[b]|
        ensures SameLinks(s.mem, t.mem, s.lists[b][k])
      {
        BlockInMem(s, b, k);
        assert HBlock(s.lists[b][k], b, true) in s.blocks;
      }
      DListFrame(s.mem, t.mem, s.lists[b]);
    }
  }

  lemma {:induction false} SplitKeeps(s: State, i: nat, loose: set<nat>)
    requires Inv(s, loose) && i < |s.blocks| && s.blocks[i].addr in loose && s.blocks[i].bucket > MIN_BUCKET
    ensures s.blocks[i].addr in s.mem && s.mem[s.blocks[i].addr].bucket == s.blocks[i].bucket
    ensures Inv(Split(s, i), loose + {s.blocks[i].addr + Pow2(s.blocks[i].bucket - 1)})
  {
    hide Shape, Threaded, SplitMem, Filed, Halved, Pow2, PhysNext;
    SplitShape(s, i);
    SplitThreaded(s, i, loose);
    SplitFresh(s, i);
    HalvedFiled(s.blocks, s.lists, i, loose);
  }

  lemma SplitFresh(s: State, i: nat)
    requires Shape(s) && i < |s.blocks| && s.blocks[i].bucket > MIN_BUCKET
    ensures forall h | h in s.blocks :: h.addr != s.blocks[i].addr + Pow2(s.blocks[i].bucket - 1)
  {
    HalfIsNew(s.blocks, s.start, s.End(), i);
  }

  lemma SplitReady(s: State, i: nat, loose: set<nat>)
    requires Inv(s, loose) && i < |s.blocks| && s.blocks[i].addr in loose && s.blocks[i].bucket > MIN_BUCKET
    ensures var a := s.blocks[i].addr;
            && a in s.mem && s.mem[a].bucket == s.blocks[i].bucket && a != NULL
            && (s.mem[a].physNext == NULL || s.mem[a].physNext in s.mem)
    ensures Inv(Split(s, i), loose + {s.blocks[i].addr + Pow2(s.blocks[i].bucket - 1)})
  {
    hide Shape, Threaded, SplitMem, Filed, Halved, Pow2, PhysNext;
    LinksPoint(s, i);
    SplitKeeps(s, i, loose);
  }

  // ----- c4a_do_coalesce, after both blocks are out of their lists -----

  function JoinMem(m: Memory, a: nat, b: nat): Memory
    requires a in m && b in m
  {
    var m1 := m[a := m[a].(bucket := m[a].bucket + 1)];
    var m2 := m1[a := m1[a].(physNext := m1[b].physNext)];
    if m2[a].physNext != NULL && m2[a].physNext in m2 then m2[m2[a].physNext := m2[m2[a].physNext].(physPrev := a)] else m2
  }

  lemma {:induction false} JoinHeaders(m: Memory, a: nat, b: nat)
    requires a in m && b in m && a != b && m[b].physNext != a && (m[b].physNext == NULL || m[b].physNext in m)
    ensures var n, x := JoinMem(m, a, b), m[b].physNext;
            && n.Keys == m.Keys
            && n[a] == m[a].(bucket := m[a].bucket + 1, physNext := x)
            && (x != NULL ==> n[x] == m[x].(physPrev := a))
            && (forall y | y in m && y != a && (y != x || x == NULL) :: n[y] == m[y])
            && (forall y | y in m :: SameLinks(m, n, y))
  {
  }

  ghost function Join(s: State, i: nat): State
    requires i + 1 < |s.blocks| && s.blocks[i].addr in s.mem && s.blocks[i + 1].addr in s.mem
  {
    s.(mem := JoinMem(s.mem, s.blocks[i].addr, s.blocks[i + 1].addr), blocks := Joined(s.blocks, i))
  }

  lemma {:induction false} JoinedLinks(bs: seq<HBlock>, start: nat, i: nat, k: nat)
    requires Linked(bs, start, i) && k < |bs| - 1
    ensures var cs := Joined(bs, i);
            && PhysNext(cs, start, k) == PhysNext(bs, start, if k < i then k else k + 1)
            && PhysPrev(cs, start, k) == (if k <= i then PhysPrev(bs, start, k)
                                          else if k == i + 1 && Linked(bs, start, i + 1) then bs[i].addr else PhysPrev(bs, start, k + 1))
  {
    JoinedElements(bs, i);
    var cs := Joined(bs, i);
    hide Joined, Chunk;
    assert k < i ==> cs[k].addr == bs[k].addr && cs[k + 1].addr == bs[k + 1].addr;
    assert 0 < k <= i ==> cs[k - 1] == bs[k - 1];
    assert k > i ==> cs[k] == bs[k + 1];
    assert k >= i && k + 1 < |cs| ==> cs[k + 1] == bs[k + 2];
    assert k > i + 1 ==> cs[k - 1] == bs[k];
  }

  lemma {:induction false} JoinLinks(s: State, i: nat, k: nat)
    requires Shape(s) && CanJoin(s.blocks, s.start, i) && k < |s.blocks| - 1
    requires s.blocks[i].addr in s.mem && s.blocks[i + 1].addr in s.mem
    ensures Headed(Join(s, i).mem, Joined(s.blocks, i), s.start, k)
  {
    hide Tiled, JoinMem, Joined, PhysPrev, Chunk;
    var bs, m := s.blocks, s.mem;
    var j := if k <= i then k else k + 1;
    LinksPoint(s, i);
    LinksPoint(s, i + 1);
    TiledAscends(bs, s.start, s.End());
    JoinHeaders(m, bs[i].addr, bs[i + 1].addr);
    JoinedElements(bs, i);
    JoinedLinks(bs, s.start, i, k);
    NextAddress(bs, s.start, s.End(), i, j);
    NextAddress(bs, s.start, s.End(), i + 1, j);
    assert Headed(m, bs, s.start, j);
    assert Headed(m, bs, s.start, i + 1);
  }

  lemma {:induction false} JoinShape(s: State, i: nat)
    requires Shape(s) && CanJoin(s.blocks, s.start, i)
    ensures s.blocks[i].addr in s.mem && s.blocks[i + 1].addr in s.mem && Shape(Join(s, i))
  {
    LinksPoint(s, i);
    LinksPoint(s, i + 1);
    JoinedTiles(s.blocks, s.start, s.End(), i);
    var t := Join(s, i);
    forall k | 0 <= k < |t.blocks|
      ensures Headed(t.mem, t.blocks, t.start, k)
    {
      JoinLinks(s, i, k);
    }
  }

  lemma {:induction false} JoinedMembers(bs: seq<HBlock>, i: nat)
    requires Ascending(bs) && i + 1 < |bs|
    ensures forall h | h in bs && h != bs[i] && h != bs[i + 1] :: h in Joined(bs, i)
    ensures forall h | h in Joined(bs, i) :: (h in bs && h.addr != bs[i + 1].addr) || h.addr == bs[i].addr
  {
    var cs := Joined(bs, i);
    JoinedElements(bs, i);
    hide Joined;
    forall h | h in bs && h != bs[i] && h != bs[i + 1]
      ensures h in cs
    {
      var j :| 0 <= j < |bs| && bs[j] == h;
      assert cs[if j < i then j else j - 1] == h;
    }
    forall h | h in cs
      ensures (h in bs && h.addr != bs[i + 1].addr) || h.addr == bs[i].addr
    {
      var j :| 0 <= j < |cs| && cs[j] == h;
      assert h == bs[if j < i then j else j + 1] || h.addr == bs[i].addr;
    }
  }

  lemma {:induction false} JoinedFiled(bs: seq<HBlock>, lists: seq<seq<nat>>, i: nat, loose: set<nat>)
    requires Filed(bs, lists, loose) && Ascending(bs) && i + 1 < |bs| && bs[i].addr in loose && bs[i + 1].addr in loose
    ensures Filed(Joined(bs, i), lists, loose - {bs[i + 1].addr})
  {
    JoinedMembers(bs, i);
    hide Joined, Ascending;
  }

  lemma {:induction false} JoinKeeps(s: State, i: nat, loose: set<nat>)
    requires Inv(s, loose) && CanJoin(s.blocks, s.start, i) && s.blocks[i].addr in loose && s.blocks[i + 1].addr in loose
    ensures s.blocks[i].addr in s.mem && s.blocks[i + 1].addr in s.mem
    ensures Inv(Join(s, i), loose - {s.blocks[i + 1].addr})
  {
    JoinShape(s, i);
    LinksPoint(s, i + 1);
    TiledAscends(s.blocks, s.start, s.End());
    JoinHeaders(s.mem, s.blocks[i].addr, s.blocks[i + 1].addr);
    JoinedFiled(s.blocks, s.lists, i, loose);
    var t := Join(s, i);
    hide Shape, JoinMem, Pow2, Joined;
    forall b | 0 <= b < BUCKETS
      ensures ThreadedAt(t, b)
    {
      assert ThreadedAt(s, b);
      forall k | 0 <= k < |s.lists[b]|
        ensures SameLinks(s.mem, t.mem, s.lists[b][k])
      {
        BlockInMem(s, b, k);
      }
      DListFrame(s.mem, t.mem, s.lists[b]);
    }
  }

  lemma JoinReady(s: State, i: nat, loose: set<nat>)
    requires Inv(s, loose) && CanJoin(s.blocks, s.start, i) && s.blocks[i].addr in loose && s.blocks[i + 1].addr in loose
    ensures var a, b := s.blocks[i].addr, s.blocks[i + 1].addr;
            && a in s.mem && b in s.mem && a != b && (s.mem[b].physNext == NULL || (s.mem[b].physNext in s.mem && s.mem[b].physNext != a))
            && SameLinks(s.mem, Join(s, i).mem, a)
    ensures Inv(Join(s, i), loose - {s.blocks[i + 1].addr})
  {
    JoinKeeps(s, i, loose);
    LinksPoint(s, i + 1);
    TiledAscends(s.blocks, s.start, s.End());
    hide Tiled, Linked, Filed, Threaded;
    JoinHeaders(s.mem, s.blocks[i].addr, s.blocks[i + 1].addr);
  }

  // ----- c4a_grow -----

  ghost function GrownBlocks(bs: seq<HBlock>, end: nat): seq<HBlock> {
    bs + [HBlock(end, MAX_BUCKET, true)]
  }

  ghost function Grown(s: State): State {
    s.(pages := s.pages + CHUNK / PAGE_SIZE,
    mem := s.mem[s.End() := Node(NULL, NULL, NULL, NULL, FREE, MAX_BUCKET)],
    blocks := GrownBlocks(s.blocks, s.End()))
  }

  lemma WholeChunk(start: nat, end: nat)
    requires end >= start && (end - start) % CHUNK == 0
    ensures Chunk(start, end) == Chunk(start, end + CHUNK - 1)
    ensures forall a: nat | start <= a < end :: Chunk(start, a) < Chunk(start, end)
  {
  }

  lemma {:induction false} GrownTiles(bs: seq<HBlock>, start: nat, end: nat)
    requires Tiled(bs, start, end) && end >= start && (end - start) % CHUNK == 0
    ensures Tiled(GrownBlocks(bs, end), start, end + CHUNK)
    ensures forall i | 0 <= i < |bs| :: bs[i].addr < end
  {
    Pow2Values();
    var b, cs := HBlock(end, MAX_BUCKET, true), GrownBlocks(bs, end);
    WholeChunk(start, end);
    assert Sound(b, start);
    forall i | 0 <= i < |bs|
      ensures bs[i].addr < end
    {
      if i + 1 < |bs| { AddressOrder(bs, start, end, i, |bs| - 1); }
    }
    assert b.End() == end + CHUNK;
    hide Sound, Pow2, Chunk;
    forall i | 0 <= i < |cs| - 1
      ensures cs[i + 1].addr == cs[i].End()
    {
      if i + 1 < |bs| { assert cs[i + 1] == bs[i + 1]; }
    }
  }

  // A new chunk is one free block, linked to nothing, so it cannot be coalesced.
  lemma {:induction false} GrownKeeps(bs: seq<HBlock>, start: nat, end: nat)
    requires Tiled(bs, start, end) && end >= start && (end - start) % CHUNK == 0
    ensures forall i :: Linked(GrownBlocks(bs, end), start, i) <==> Linked(bs, start, i)
    ensures Maximal(bs, start) ==> Maximal(GrownBlocks(bs, end), start)
    ensures Used(GrownBlocks(bs, end)) == Used(bs)
  {
    var b, cs := HBlock(end, MAX_BUCKET, true), GrownBlocks(bs, end);
    UsedSum(bs, [b], []);
    assert bs + [b] + [] == cs;
    assert Used([b]) == {} by { assert forall x | x in [b] :: x == b; }
    WholeChunk(start, end);
    if bs != [] { assert Sound(bs[|bs| - 1], start); }
    hide Chunk, Used, Tiled;
    forall i | 0 <= i < |bs|
      ensures cs[i] == bs[i]
    {
    }
    if Maximal(bs, start) {
      forall i
        ensures !CanJoin(cs, start, i)
      {
        assert !CanJoin(bs, start, i);
      }
    }
  }

  lemma {:induction false} GrowShape(s: State)
    requires Shape(s)
    ensures Shape(Grown(s)) && forall h | h in s.blocks :: h.addr < s.End()
  {
    hide Tiled, Pow2, Chunk, Linked, Used, PhysNext, PhysPrev;
    var t, bs := Grown(s), s.blocks;
    GrownTiles(bs, s.start, s.End());
    GrownKeeps(bs, s.start, s.End());
    assert t.End() == s.End() + CHUNK;
    forall k | 0 <= k < |t.blocks|
      ensures Headed(t.mem, t.blocks, t.start, k)
    {
      if k < |bs| {
        assert t.blocks[k] == bs[k] && Headed(s.mem, bs, s.start, k);
        GrownLinks(bs, s.start, s.End(), k);
      } else {
        GrownLast(bs, s.start, s.End());
      }
    }
  }

  lemma GrownLinks(bs: seq<HBlock>, start: nat, end: nat, k: nat)
    requires k < |bs| && forall i :: Linked(GrownBlocks(bs, end), start, i) <==> Linked(bs, start, i)
    ensures PhysNext(GrownBlocks(bs, end), start, k) == PhysNext(bs, start, k)
    ensures PhysPrev(GrownBlocks(bs, end), start, k) == PhysPrev(bs, start, k)
  {
    hide Chunk;
    assert Linked(GrownBlocks(bs, end), start, k) <==> Linked(bs, start, k);
    assert Linked(GrownBlocks(bs, end), start, k - 1) <==> Linked(bs, start, k - 1);
  }

  lemma GrownLast(bs: seq<HBlock>, start: nat, end: nat)
    requires forall i :: Linked(GrownBlocks(bs, end), start, i) <==> Linked(bs, start, i)
    ensures PhysNext(GrownBlocks(bs, end), start, |bs|) == PhysPrev(GrownBlocks(bs, end), start, |bs|) == NULL
  {
    assert !Linked(bs, start, |bs| - 1);
  }

  lemma {:induction false} GrowKeeps(s: State)
    requires Inv(s, {})
    ensures Inv(Grown(s), {s.End()})
  {
    var t, u := Grown(s), s.End();
    GrowShape(s);
    assert t.blocks[|s.blocks|].addr == u;
    hide Shape;
    forall b | 0 <= b < BUCKETS
      ensures ThreadedAt(t, b)
    {
      assert ThreadedAt(s, b);
      forall k | 0 <= k < |s.lists[b]|
        ensures SameLinks(s.mem, t.mem, s.lists[b][k])
      {
        assert HBlock(s.lists[b][k], b, true) in s.blocks;
      }
      DListFrame(s.mem, t.mem, s.lists[b]);
    }
  }

  // ----- Changing a block's status -----

  ghost function Marked(s: State, i: nat, status: Status): State
    requires i < |s.blocks| && s.blocks[i].addr in s.mem
  {
    var a := s.blocks[i].addr;
    s.(mem := s.mem[a := s.mem[a].(status := status)], blocks := s.blocks[i := s.blocks[i].(free := status == FREE)])
  }

  lemma MarkLinks(bs: seq<HBlock>, start: nat, i: nat, free: bool, k: nat)
    requires i < |bs| && k < |bs|
    ensures PhysNext(bs[i := bs[i].(free := free)], start, k) == PhysNext(bs, start, k)
    ensures PhysPrev(bs[i := bs[i].(free := free)], start, k) == PhysPrev(bs, start, k)
  {
    hide Chunk;
  }

  lemma {:induction false} MarkShape(s: State, i: nat, status: Status)
    requires Shape(s) && i < |s.blocks|
    ensures s.blocks[i].addr in s.mem && Shape(Marked(s, i, status))
  {
    hide Tiled, Chunk, PhysNext, PhysPrev, Linked;
    LinksPoint(s, i);
    var t := Marked(s, i, status);
    FlagTiles(s.blocks, s.start, s.End(), i, status == FREE);
    TiledAscends(s.blocks, s.start, s.End());
    forall k | 0 <= k < |t.blocks|
      ensures Headed(t.mem, t.blocks, t.start, k)
    {
      assert Headed(s.mem, s.blocks, s.start, k);
      MarkLinks(s.blocks, s.start, i, status == FREE, k);
    }
  }

  lemma {:induction false} MarkFiled(bs: seq<HBlock>, lists: seq<seq<nat>>, i: nat, free: bool, loose: set<nat>)
    requires Filed(bs, lists, loose) && Ascending(bs) && i < |bs| && (bs[i].addr in loose || !bs[i].free)
    ensures Filed(bs[i := bs[i].(free := free)], lists, if free then loose + {bs[i].addr} else loose - {bs[i].addr})
  {
    var cs, a := bs[i := bs[i].(free := free)], bs[i].addr;
    forall h | h in bs && h != bs[i]
      ensures h in cs && h.addr != a
    {
      var j :| 0 <= j < |bs| && bs[j] == h;
      assert cs[j] == h && (j < i || i < j);
    }
    assert cs[i] in cs;
  }

  // A loose block taken into use is no longer missing from a list; a used block freed is.
  lemma {:induction false} MarkKeeps(s: State, i: nat, status: Status, loose: set<nat>)
    requires i < |s.blocks| && Inv(s, loose) && (s.blocks[i].addr in loose || !s.blocks[i].free)
    ensures s.blocks[i].addr in s.mem
    ensures Inv(Marked(s, i, status), if status == FREE then loose + {s.blocks[i].addr} else loose - {s.blocks[i].addr})
  {
    MarkShape(s, i, status);
    TiledAscends(s.blocks, s.start, s.End());
    MarkFiled(s.blocks, s.lists, i, status == FREE, loose);
    var t := Marked(s, i, status);
    hide Shape;
    forall b | 0 <= b < BUCKETS
      ensures ThreadedAt(t, b)
    {
      assert ThreadedAt(s, b);
      DListFrame(s.mem, t.mem, s.lists[b]);
    }
  }

  // The list links of a loose block do not matter.
  lemma {:induction false} ClearKeeps(s: State, a: nat, loose: set<nat>)
    requires Inv(s, loose) && a in loose && a in s.mem
    ensures Inv(s.(mem := s.mem[a := s.mem[a].(next := NULL, previous := NULL)]), loose)
  {
    var t := s.(mem := s.mem[a := s.mem[a].(next := NULL, previous := NULL)]);
    HeadedFrame(s.mem, t.mem, s.blocks, s.start);
    assert Shape(t);
    hide Shape, DList;
    forall b | 0 <= b < BUCKETS
      ensures ThreadedAt(t, b)
    {
      assert ThreadedAt(s, b);
      forall k | 0 <= k < |s.lists[b]|
        ensures SameLinks(s.mem, t.mem, s.lists[b][k])
      {
        assert s.lists[b][k] != a;
      }
      DListFrame(s.mem, t.mem, s.lists[b]);
    }
  }

  // ----- Which buckets are empty -----

  lemma EmptyBucket(s: State, b: nat)
    requires Inv(s, {}) && b < BUCKETS && s.lists[b] == []
    ensures forall k | 0 <= k < |s.blocks| && s.blocks[k].free :: s.blocks[k].bucket != b
  {
    hide Shape, Threaded;
    forall k | 0 <= k < |s.blocks| && s.blocks[k].free
      ensures s.blocks[k].bucket != b
    {
      assert s.blocks[k] in s.blocks;
    }
  }
}
